/** The visibility sections of an interface (IDLPublicInterfaceSection,
    IDLProtectedInterfaceSection, IDLPrivateInterfaceSection): one container
    parameterised by its visibility, holding typedefs, structs, unions,
    enums, consts and methods, filled from the token buffer up to `};`. */
module Sections {
  import opened Wrappers
  import opened PyStr
  import opened Node
  import opened Tokens
  import opened Leaf
  import opened Structs
  import opened Methods

  datatype Visibility = Public | Protected | Private

  /** The name a section is created with (and looked up by). */
  function VisibilityName(v: Visibility): string
  {
    match v
    case Public => "public"
    case Protected => "protected"
    case Private => "private"
  }

  datatype Section = Section(vis: Visibility, typedefs: seq<Typedef>, structs: seq<Struct>,
                             unions: seq<Union>, enums: seq<Enum>, consts: seq<Const>,
                             methods: seq<Method>)

  /** A freshly created section: every list empty. */
  function NewSection(v: Visibility): (s: Section)
    ensures s.vis == v
    ensures s.typedefs == [] && s.structs == [] && s.unions == [] && s.enums == []
    ensures s.consts == [] && s.methods == []
  {
    Section(v, [], [], [], [], [], [])
  }

  /** A section's `full_path`: the interface's path, the separator, the
      section's name. */
  function SectionPath(interfacePath: string, v: Visibility): string
  {
    interfacePath + Sep + VisibilityName(v)
  }

  // ---------------------------------------------------------------------
  // The `*_by_name` lookups.

  /** The first element whose name is `n`, or None. */
  function FirstNamed<T>(xs: seq<T>, nameOf: T -> string, n: string): (r: Option<T>)
    ensures r.Some? <==> exists i :: 0 <= i < |xs| && nameOf(xs[i]) == n
    ensures r.Some? ==> exists i :: 0 <= i < |xs| && xs[i] == r.value && nameOf(xs[i]) == n
                          && forall j :: 0 <= j < i ==> nameOf(xs[j]) != n
    decreases |xs|
  {
    if xs == [] then None
    else if nameOf(xs[0]) == n then Some(xs[0])
    else
      var r := FirstNamed(xs[1..], nameOf, n);
      assert forall i :: 1 <= i < |xs| ==> xs[i] == xs[1..][i - 1];
      r
  }

  function StructName(s: Struct): string { s.name }
  function UnionName(u: Union): string { u.name }
  function EnumName(e: Enum): string { e.name }
  function ConstName(c: Const): string { c.name }
  function TypedefName(t: Typedef): string { t.name }
  function MethodName(m: Method): string { m.name }

  function StructByName(sec: Section, n: string): Option<Struct>
  {
    FirstNamed(sec.structs, StructName, n)
  }

  /** `union_by_name`: the protected and private sections read a list that
      does not exist, so there the lookup itself fails. */
  function UnionByName(sec: Section, n: Option<string>): Result<Option<Union>>
  {
    if sec.vis != Public then Err
    else if n.None? then Ok(None)
    else Ok(FirstNamed(sec.unions, UnionName, n.value))
  }

  function EnumByName(sec: Section, n: string): Option<Enum>
  {
    FirstNamed(sec.enums, EnumName, n)
  }

  function ConstByName(sec: Section, n: string): Option<Const>
  {
    FirstNamed(sec.consts, ConstName, n)
  }

  function TypedefByName(sec: Section, n: string): Option<Typedef>
  {
    FirstNamed(sec.typedefs, TypedefName, n)
  }

  function MethodByName(sec: Section, n: string): Option<Method>
  {
    FirstNamed(sec.methods, MethodName, n)
  }

  // ---------------------------------------------------------------------
  // Token runs closed by `;` (typedef and const).

  /** The typedef collection loop: tokens up to `;`; the end of the buffer
      is a syntax failure. The const collection is this loop too, once its
      missing end-of-buffer check is supplied. */
  function CollectUntilSemi(t: seq<string>, p: nat, acc: seq<string>): (r: Parsed<seq<string>>)
    requires p <= |t|
    ensures p <= r.pos <= |t|
    decreases |t| - p
  {
    match PeekAt(t, p)
    case None => Parsed(acc, p, false)
    case Some(tok) =>
      if tok == ";" then Parsed(acc, p + 1, true)
      else CollectUntilSemi(t, p + 1, acc + [tok])
  }

  /** The collection loop as a loop over the buffer. */
  method CollectTokens(ts: TokenStream) returns (vals: seq<string>, ok: bool)
    requires ts.Valid()
    modifies ts
    ensures ts.Valid()
    ensures CollectUntilSemi(ts.tokens, old(ts.pos), []) == Parsed(vals, ts.pos, ok)
  {
    vals := [];
    while true
      invariant ts.Valid()
      invariant CollectUntilSemi(ts.tokens, ts.pos, vals) == CollectUntilSemi(ts.tokens, old(ts.pos), [])
      decreases |ts.tokens| - ts.pos
    {
      var tok := ts.Pop();
      match tok
      case None =>
        return vals, false;
      case Some(x) =>
        if x == ";" {
          return vals, true;
        }
        vals := vals + [x];
    }
  }

  /** The const collection loop as written: `pop` yields None at the end of
      the buffer, which is appended like any token, and only `;` stops the
      loop. `fuel` bounds the number of pops; None means the loop has not
      stopped within them. */
  function ConstValuesAsWritten(t: seq<string>, p: nat, acc: seq<Option<string>>, fuel: nat): Option<seq<Option<string>>>
    decreases fuel
  {
    if fuel == 0 then None
    else
      var tok := PeekAt(t, p);
      if tok == Some(";") then Some(acc)
      else ConstValuesAsWritten(t, NextAt(t, p), acc + [tok], fuel - 1)
  }

  /** `IDLConst(values[-3], type, values[-1])`: the value is the last token,
      the name the third from last, and the type the second from last
      followed by the tokens before the name, blank-separated and stripped. */
  function ConstOf(vals: seq<string>): Const
    requires |vals| >= 3
  {
    var n := |vals|;
    Const(vals[n - 3], Strip(FoldSpaced(vals[n - 2], vals[..n - 3])), vals[n - 1])
  }

  // ---------------------------------------------------------------------
  // One declaration, from the token after its keyword.

  /** `typedef ... ;`: the typedef is appended once its tokens are
      collected; it is always appended. */
  function ReadTypedef(t: seq<string>, q: nat, sec: Section): (r: Parsed<Section>)
    requires q <= |t|
    ensures q <= r.pos <= |t|
  {
    var c := CollectUntilSemi(t, q, []);
    if !c.ok then Parsed(sec, c.pos, false)
    else Parsed(sec.(typedefs := sec.typedefs + [TypedefOf(c.value)]), c.pos, true)
  }

  /** `struct <name> { ... } ;`: the duplicate check compares the stored
      (stripped) names with the name token as popped; the struct is parsed
      in full and appended only when no struct of that name exists. */
  function ReadStruct(t: seq<string>, q: nat, sec: Section): (r: Parsed<Section>)
    requires q <= |t|
    ensures q <= r.pos <= |t|
  {
    match PeekAt(t, q)
    case None => Parsed(sec, q, false)
    case Some(n) =>
      var dup := StructByName(sec, n).Some?;
      var s := StructBody(t, q + 1, NewStruct(n));
      if !s.ok then Parsed(sec, s.pos, false)
      else Parsed(if dup then sec else sec.(structs := sec.structs + [s.value]), s.pos, true)
  }

  /** `union <name> { ... } ;`, public sections only. */
  function ReadUnion(t: seq<string>, q: nat, sec: Section): (r: Parsed<Section>)
    requires q <= |t|
    ensures q <= r.pos <= |t|
  {
    var name := PeekAt(t, q);
    var q' := NextAt(t, q);
    match UnionByName(sec, name)
    case Err => Parsed(sec, q', false)
    case Ok(found) =>
      var u := ParseUnion(t, q', name);
      if !u.ok then Parsed(sec, u.pos, false)
      else Parsed(if found.Some? then sec else sec.(unions := sec.unions + [u.value]), u.pos, true)
  }

  /** `enum <name> { ... } ;`: parsed first, then checked for a duplicate. */
  function ReadEnum(t: seq<string>, q: nat, sec: Section): (r: Parsed<Section>)
    requires q <= |t|
    ensures q <= r.pos <= |t|
  {
    var name := PeekAt(t, q);
    var e := ParseEnum(t, NextAt(t, q), name);
    if !e.ok then Parsed(sec, e.pos, false)
    else
      var dup := name.Some? && EnumByName(sec, name.value).Some?;
      Parsed(if dup then sec else sec.(enums := sec.enums + [e.value]), e.pos, true)
  }

  /** `const ... ;` with the end-of-buffer check supplied: fewer than three
      tokens fail; a const whose name exists is dropped. */
  function ReadConst(t: seq<string>, q: nat, sec: Section): (r: Parsed<Section>)
    requires q <= |t|
    ensures q <= r.pos <= |t|
  {
    var c := CollectUntilSemi(t, q, []);
    if !c.ok || |c.value| < 3 then Parsed(sec, c.pos, false)
    else
      var k := ConstOf(c.value);
      Parsed(if ConstByName(sec, k.name).Some? then sec else sec.(consts := sec.consts + [k]), c.pos, true)
  }

  /** The declaration keywords a section dispatches on. */
  predicate DeclKeyword(tok: string)
  {
    tok == "typedef" || tok == "struct" || tok == "union" || tok == "enum" || tok == "const"
  }

  /** The declaration introduced by keyword `kw`. */
  function ReadDecl(t: seq<string>, q: nat, kw: string, sec: Section): (r: Parsed<Section>)
    requires q <= |t| && DeclKeyword(kw)
    ensures q <= r.pos <= |t|
  {
    if kw == "typedef" then ReadTypedef(t, q, sec)
    else if kw == "struct" then ReadStruct(t, q, sec)
    else if kw == "union" then ReadUnion(t, q, sec)
    else if kw == "enum" then ReadEnum(t, q, sec)
    else ReadConst(t, q, sec)
  }

  // ---------------------------------------------------------------------
  // The section body.

  /** The `while True` loop of a section's `parse_tokens` after the `{`:
      declarations by keyword, a method for each `;`-terminated run of the
      other tokens (`block` is the pending run), `}` `;` to finish. */
  function SectionLoop(t: seq<string>, p: nat, block: seq<string>, sec: Section): (r: Parsed<Section>)
    requires p <= |t|
    ensures p <= r.pos <= |t|
    decreases |t| - p
  {
    match PeekAt(t, p)
    case None => Parsed(sec, p, false)
    case Some(tok) =>
      if DeclKeyword(tok) then
        var d := ReadDecl(t, p + 1, tok, sec);
        if !d.ok then d else SectionLoop(t, d.pos, block, d.value)
      else if tok == "}" then
        Parsed(sec, NextAt(t, p + 1), PeekAt(t, p + 1) == Some(";"))
      else if tok == ";" then
        match MethodOf(block)
        case Err => Parsed(sec, p + 1, false)
        case Ok(m) => SectionLoop(t, p + 1, [], sec.(methods := sec.methods + [m]))
      else SectionLoop(t, p + 1, block + [tok], sec)
  }

  /** A section's `parse_tokens(token_buf)`: a `{`, then the loop. */
  function SectionBody(t: seq<string>, p: nat, sec: Section): (r: Parsed<Section>)
    requires p <= |t|
    ensures p <= r.pos <= |t|
  {
    if PeekAt(t, p) != Some("{") then Parsed(sec, NextAt(t, p), false)
    else SectionLoop(t, p + 1, [], sec)
  }

  // ---------------------------------------------------------------------
  // The same, as loops over the token buffer.

  method ParseTypedef(ts: TokenStream, sec0: Section) returns (sec: Section, ok: bool)
    requires ts.Valid()
    modifies ts
    ensures ts.Valid()
    ensures ReadTypedef(ts.tokens, old(ts.pos), sec0) == Parsed(sec, ts.pos, ok)
  {
    var blocks, done := CollectTokens(ts);
    if !done {
      return sec0, false;
    }
    sec := sec0.(typedefs := sec0.typedefs + [TypedefOf(blocks)]);
    ok := true;
  }

  method ParseStruct(ts: TokenStream, sec0: Section) returns (sec: Section, ok: bool)
    requires ts.Valid()
    modifies ts
    ensures ts.Valid()
    ensures ReadStruct(ts.tokens, old(ts.pos), sec0) == Parsed(sec, ts.pos, ok)
  {
    var name := ts.Pop();
    if name.None? {
      return sec0, false;
    }
    var dup := StructByName(sec0, name.value);
    var s, sok := ParseStructTokens(ts, NewStruct(name.value));
    if !sok {
      return sec0, false;
    }
    sec := if dup.Some? then sec0 else sec0.(structs := sec0.structs + [s]);
    ok := true;
  }

  method ParseUnionDecl(ts: TokenStream, sec0: Section) returns (sec: Section, ok: bool)
    requires ts.Valid()
    modifies ts
    ensures ts.Valid()
    ensures ReadUnion(ts.tokens, old(ts.pos), sec0) == Parsed(sec, ts.pos, ok)
  {
    var name := ts.Pop();
    var found := UnionByName(sec0, name);
    if found.Err? || name.None? {
      return sec0, false;
    }
    var body, uok := ParseBraced(ts);
    if !uok {
      return sec0, false;
    }
    sec := if found.value.Some? then sec0 else sec0.(unions := sec0.unions + [Union(name.value, body)]);
    ok := true;
  }

  method ParseEnumDecl(ts: TokenStream, sec0: Section) returns (sec: Section, ok: bool)
    requires ts.Valid()
    modifies ts
    ensures ts.Valid()
    ensures ReadEnum(ts.tokens, old(ts.pos), sec0) == Parsed(sec, ts.pos, ok)
  {
    var name := ts.Pop();
    if name.None? {
      return sec0, false;
    }
    var body, eok := ParseBraced(ts);
    if !eok {
      return sec0, false;
    }
    var dup := EnumByName(sec0, name.value);
    sec := if dup.Some? then sec0 else sec0.(enums := sec0.enums + [Enum(name.value, body)]);
    ok := true;
  }

  method ParseConst(ts: TokenStream, sec0: Section) returns (sec: Section, ok: bool)
    requires ts.Valid()
    modifies ts
    ensures ts.Valid()
    ensures ReadConst(ts.tokens, old(ts.pos), sec0) == Parsed(sec, ts.pos, ok)
  {
    var values, done := CollectTokens(ts);
    if !done || |values| < 3 {
      return sec0, false;
    }
    var n := |values|;
    var typename := values[n - 2];
    var i := 0;
    while i < n - 3
      invariant 0 <= i <= n - 3
      invariant FoldSpaced(typename, values[i..n - 3]) == FoldSpaced(values[n - 2], values[..n - 3])
    {
      assert values[i..n - 3][1..] == values[i + 1..n - 3];
      typename := typename + " " + values[i];
      i := i + 1;
    }
    assert values[..n - 3] == values[0..n - 3];
    var k := Const(values[n - 3], Strip(typename), values[n - 1]);
    var dup := ConstByName(sec0, k.name);
    sec := if dup.Some? then sec0 else sec0.(consts := sec0.consts + [k]);
    ok := true;
  }

  /** A section's `parse_tokens` as the loop it is. */
  method ParseSectionTokens(ts: TokenStream, sec0: Section) returns (sec: Section, ok: bool)
    requires ts.Valid()
    modifies ts
    ensures ts.Valid()
    ensures SectionBody(ts.tokens, old(ts.pos), sec0) == Parsed(sec, ts.pos, ok)
  {
    sec := sec0;
    var brace := ts.Pop();
    if brace != Some("{") {
      return sec, false;
    }
    var block: seq<string> := [];
    while true
      invariant ts.Valid()
      invariant SectionLoop(ts.tokens, ts.pos, block, sec) == SectionBody(ts.tokens, old(ts.pos), sec0)
      decreases |ts.tokens| - ts.pos
    {
      var tok := ts.Pop();
      match tok
      case None =>
        return sec, false;
      case Some(x) =>
        if DeclKeyword(x) {
          var dok;
          if x == "typedef" {
            sec, dok := ParseTypedef(ts, sec);
          } else if x == "struct" {
            sec, dok := ParseStruct(ts, sec);
          } else if x == "union" {
            sec, dok := ParseUnionDecl(ts, sec);
          } else if x == "enum" {
            sec, dok := ParseEnumDecl(ts, sec);
          } else {
            sec, dok := ParseConst(ts, sec);
          }
          if !dok {
            return sec, false;
          }
        } else if x == "}" {
          var semi := ts.Pop();
          return sec, semi == Some(";");
        } else if x == ";" {
          var m := ParseMethodBlocks(block);
          if m.Err? {
            return sec, false;
          }
          sec := sec.(methods := sec.methods + [m.value]);
          block := [];
        } else {
          block := block + [x];
        }
    }
  }

  // ---------------------------------------------------------------------
  // Runs closed by `;`, and the const loop as written.

  /** A run without `;`, then `;`: collected verbatim, just past the `;`. */
  lemma {:induction false} CollectUntilSemiReads(t: seq<string>, p: nat, acc: seq<string>, vals: seq<string>)
    requires TokensAt(t, p, vals + [";"])
    requires forall i :: 0 <= i < |vals| ==> vals[i] != ";"
    ensures CollectUntilSemi(t, p, acc) == Parsed(acc + vals, p + |vals| + 1, true)
    decreases |vals|
  {
    TokenAt(t, p, vals + [";"], 0);
    if vals == [] {
      assert acc + vals == acc;
    } else {
      assert vals + [";"] == [vals[0]] + (vals[1..] + [";"]);
      TokensAtSplit(t, p, [vals[0]], vals[1..] + [";"]);
      CollectUntilSemiReads(t, p + 1, acc + [vals[0]], vals[1..]);
      assert acc + [vals[0]] + vals[1..] == acc + vals;
    }
  }

  /** With no `;` ahead the collection takes the rest of the buffer and fails. */
  lemma {:induction false} CollectUntilSemiUnclosed(t: seq<string>, p: nat, acc: seq<string>)
    requires p <= |t|
    requires forall i :: p <= i < |t| ==> t[i] != ";"
    ensures CollectUntilSemi(t, p, acc) == Parsed(acc + t[p..], |t|, false)
    decreases |t| - p
  {
    if p == |t| {
      assert acc + t[p..] == acc;
    } else {
      CollectUntilSemiUnclosed(t, p + 1, acc + [t[p]]);
      assert acc + [t[p]] + t[p + 1..] == acc + t[p..];
    }
  }

  /** As written, the const loop with no `;` ahead does not stop, however
      many pops it is given. */
  lemma {:induction false} ConstLoopNeverEnds(t: seq<string>, p: nat, acc: seq<Option<string>>, fuel: nat)
    requires forall i :: p <= i < |t| ==> t[i] != ";"
    ensures ConstValuesAsWritten(t, p, acc, fuel) == None
    decreases fuel
  {
    if fuel > 0 {
      ConstLoopNeverEnds(t, NextAt(t, p), acc + [PeekAt(t, p)], fuel - 1);
    }
  }

  /** Tokens as the values `pop` returns. */
  function Somes(xs: seq<string>): (r: seq<Option<string>>)
    ensures |r| == |xs| && forall i :: 0 <= i < |xs| ==> r[i] == Some(xs[i])
  {
    seq(|xs|, i requires 0 <= i < |xs| => Some(xs[i]))
  }

  /** Where a `;` lies ahead, the loop as written stops at it (given a pop
      per remaining token) with the tokens the corrected loop collects. */
  lemma {:induction false} ConstLoopAgrees(t: seq<string>, p: nat, acc: seq<string>, fuel: nat)
    requires p <= |t| && CollectUntilSemi(t, p, acc).ok
    requires fuel > |t| - p
    ensures ConstValuesAsWritten(t, p, Somes(acc), fuel) == Some(Somes(CollectUntilSemi(t, p, acc).value))
    decreases |t| - p
  {
    if t[p] != ";" {
      assert Somes(acc) + [Some(t[p])] == Somes(acc + [t[p]]);
      ConstLoopAgrees(t, p + 1, acc + [t[p]], fuel - 1);
    }
  }

  /** `{ const long N 1` with no `;`: as written the const loop never
      stops; the corrected section parse fails. */
  lemma ConstWithoutSemicolon()
    ensures forall fuel: nat :: ConstValuesAsWritten(["{", "const", "long", "N", "1"], 2, [], fuel) == None
    ensures !SectionBody(["{", "const", "long", "N", "1"], 0, NewSection(Public)).ok
  {
    var t := ["{", "const", "long", "N", "1"];
    forall fuel: nat ensures ConstValuesAsWritten(t, 2, [], fuel) == None {
      ConstLoopNeverEnds(t, 2, [], fuel);
    }
    CollectUntilSemiUnclosed(t, 2, []);
  }

  /** The const's fields: value last, name third from last, type the second
      from last followed by the space-join of the tokens before the name. */
  lemma ConstFields(vals: seq<string>)
    requires |vals| >= 3
    ensures var n := |vals|; var k := ConstOf(vals);
      && k.name == vals[n - 3] && k.value == vals[n - 1]
      && k.typ == Strip(vals[n - 2] + (if n == 3 then "" else " " + Join(vals[..n - 3])))
  {
    FoldSpacedIsJoin(vals[|vals| - 2], vals[..|vals| - 3]);
  }

  /** `long @c MAX 100`: the name is `@c` and the type `MAX long`. */
  lemma ConstExample()
    ensures ConstOf(["long", "@c", "MAX", "100"]) == Const("@c", "MAX long", "100")
  {
    ConstFields(["long", "@c", "MAX", "100"]);
    assert ["long", "@c", "MAX", "100"][..1] == ["long"];
    StripClean("MAX long");
  }

  // ---------------------------------------------------------------------
  // What a section parse keeps: lists only grow, and the first declaration
  // of a struct, union, enum or const name is the one retained.

  /** Every list of `b` extends the same list of `a`. */
  predicate Grows(a: Section, b: Section)
  {
    && a.vis == b.vis && a.typedefs <= b.typedefs && a.structs <= b.structs
    && a.unions <= b.unions && a.enums <= b.enums && a.consts <= b.consts
    && a.methods <= b.methods
  }

  predicate DistinctBy<T>(xs: seq<T>, nameOf: T -> string)
  {
    forall i, j :: 0 <= i < j < |xs| ==> nameOf(xs[i]) != nameOf(xs[j])
  }

  /** At most one struct, union, enum and const per name. */
  predicate NamesDistinct(sec: Section)
  {
    && DistinctBy(sec.structs, StructName) && DistinctBy(sec.unions, UnionName)
    && DistinctBy(sec.enums, EnumName) && DistinctBy(sec.consts, ConstName)
  }

  /** Tokens as the tokenizer delivers them: no surrounding blanks. */
  predicate Stripped(t: seq<string>)
  {
    forall i :: 0 <= i < |t| ==> Strip(t[i]) == t[i]
  }

  /** Appending an element whose name the lookup does not find keeps names distinct. */
  lemma DistinctAppend<T>(xs: seq<T>, nameOf: T -> string, x: T)
    requires DistinctBy(xs, nameOf) && FirstNamed(xs, nameOf, nameOf(x)).None?
    ensures DistinctBy(xs + [x], nameOf)
  {
    forall i, j | 0 <= i < j < |xs + [x]| ensures nameOf((xs + [x])[i]) != nameOf((xs + [x])[j]) {
      if j == |xs| {
        assert (xs + [x])[i] == xs[i];
      }
    }
  }

  lemma ReadStructKeeps(t: seq<string>, q: nat, sec: Section)
    requires q <= |t| && Stripped(t) && NamesDistinct(sec)
    ensures Grows(sec, ReadStruct(t, q, sec).value) && NamesDistinct(ReadStruct(t, q, sec).value)
  {
    var r := ReadStruct(t, q, sec);
    if q < |t| && r.ok && r.value != sec {
      var n := t[q];
      var s := StructBody(t, q + 1, NewStruct(n));
      if PeekAt(t, q + 1) == Some("{") {
        StructLoopKeepsName(t, q + 2, [], NewStruct(n));
      }
      assert s.value.name == n;
      DistinctAppend(sec.structs, StructName, s.value);
    }
  }

  lemma ReadUnionKeeps(t: seq<string>, q: nat, sec: Section)
    requires q <= |t| && NamesDistinct(sec)
    ensures Grows(sec, ReadUnion(t, q, sec).value) && NamesDistinct(ReadUnion(t, q, sec).value)
    ensures sec.vis != Public ==> !ReadUnion(t, q, sec).ok && ReadUnion(t, q, sec).value == sec
  {
    var r := ReadUnion(t, q, sec);
    if r.ok && r.value != sec {
      var u := ParseUnion(t, NextAt(t, q), PeekAt(t, q));
      DistinctAppend(sec.unions, UnionName, u.value);
    }
  }

  lemma ReadEnumKeeps(t: seq<string>, q: nat, sec: Section)
    requires q <= |t| && NamesDistinct(sec)
    ensures Grows(sec, ReadEnum(t, q, sec).value) && NamesDistinct(ReadEnum(t, q, sec).value)
  {
    var r := ReadEnum(t, q, sec);
    if r.ok && r.value != sec {
      var e := ParseEnum(t, NextAt(t, q), PeekAt(t, q));
      DistinctAppend(sec.enums, EnumName, e.value);
    }
  }

  lemma ReadConstKeeps(t: seq<string>, q: nat, sec: Section)
    requires q <= |t| && NamesDistinct(sec)
    ensures Grows(sec, ReadConst(t, q, sec).value) && NamesDistinct(ReadConst(t, q, sec).value)
  {
    var c := CollectUntilSemi(t, q, []);
    if c.ok && |c.value| >= 3 {
      var k := ConstOf(c.value);
      if ConstByName(sec, k.name).None? {
        DistinctAppend(sec.consts, ConstName, k);
      }
    }
  }

  /** A struct whose name is taken is still parsed in full: the declaration
      succeeds exactly when its body parses, ends where the body ends, and
      leaves the section as it was, so the first struct of that name stays. */
  lemma ReadStructDuplicate(t: seq<string>, q: nat, sec: Section)
    requires q < |t| && StructByName(sec, t[q]).Some?
    ensures var s := StructBody(t, q + 1, NewStruct(t[q]));
      ReadStruct(t, q, sec) == Parsed(sec, s.pos, s.ok)
  {
  }

  /** The same for a union in the public section. */
  lemma ReadUnionDuplicate(t: seq<string>, q: nat, sec: Section)
    requires q < |t| && sec.vis == Public && FirstNamed(sec.unions, UnionName, t[q]).Some?
    ensures var u := ParseUnion(t, q + 1, Some(t[q]));
      ReadUnion(t, q, sec) == Parsed(sec, u.pos, u.ok)
  {
  }

  /** The same for an enum. */
  lemma ReadEnumDuplicate(t: seq<string>, q: nat, sec: Section)
    requires q < |t| && EnumByName(sec, t[q]).Some?
    ensures var e := ParseEnum(t, q + 1, Some(t[q]));
      ReadEnum(t, q, sec) == Parsed(sec, e.pos, e.ok)
  {
  }

  /** A const whose name is taken: its tokens are consumed up to `;`, the
      declaration succeeds, and the section is left as it was. */
  lemma ReadConstDuplicate(t: seq<string>, q: nat, sec: Section)
    requires q <= |t|
    requires var c := CollectUntilSemi(t, q, []);
      c.ok && |c.value| >= 3 && ConstByName(sec, ConstOf(c.value).name).Some?
    ensures ReadConst(t, q, sec) == Parsed(sec, CollectUntilSemi(t, q, []).pos, true)
  {
  }

  /** One declaration: the section only grows, its names stay distinct, and
      outside the public section the unions are untouched. */
  lemma ReadDeclKeeps(t: seq<string>, q: nat, kw: string, sec: Section)
    requires q <= |t| && DeclKeyword(kw) && Stripped(t) && NamesDistinct(sec)
    ensures Grows(sec, ReadDecl(t, q, kw, sec).value) && NamesDistinct(ReadDecl(t, q, kw, sec).value)
    ensures sec.vis != Public ==> ReadDecl(t, q, kw, sec).value.unions == sec.unions
  {
    if kw == "typedef" {
    } else if kw == "struct" {
      ReadStructKeeps(t, q, sec);
    } else if kw == "union" {
      ReadUnionKeeps(t, q, sec);
    } else if kw == "enum" {
      ReadEnumKeeps(t, q, sec);
    } else {
      ReadConstKeeps(t, q, sec);
    }
  }

  /** The section loop only appends, keeps the first declaration of each
      struct, union, enum and const name, and adds no union to a protected
      or private section. */
  lemma {:induction false} SectionLoopKeeps(t: seq<string>, p: nat, block: seq<string>, sec: Section)
    requires p <= |t| && Stripped(t) && NamesDistinct(sec)
    ensures Grows(sec, SectionLoop(t, p, block, sec).value)
    ensures NamesDistinct(SectionLoop(t, p, block, sec).value)
    ensures sec.vis != Public ==> SectionLoop(t, p, block, sec).value.unions == sec.unions
    decreases |t| - p
  {
    if p < |t| {
      var tok := t[p];
      if DeclKeyword(tok) {
        var d := ReadDecl(t, p + 1, tok, sec);
        ReadDeclKeeps(t, p + 1, tok, sec);
        if d.ok {
          SectionLoopKeeps(t, d.pos, block, d.value);
        }
      } else if tok == "}" {
      } else if tok == ";" {
        match MethodOf(block)
        case Err =>
        case Ok(m) => SectionLoopKeeps(t, p + 1, [], sec.(methods := sec.methods + [m]));
      } else {
        SectionLoopKeeps(t, p + 1, block + [tok], sec);
      }
    }
  }

  /** A section parse, successful or not, leaves a section that extends the
      one it started from and keeps its names distinct. */
  lemma SectionBodyKeeps(t: seq<string>, p: nat, sec: Section)
    requires p <= |t| && Stripped(t) && NamesDistinct(sec)
    ensures Grows(sec, SectionBody(t, p, sec).value)
    ensures NamesDistinct(SectionBody(t, p, sec).value)
    ensures sec.vis != Public ==> SectionBody(t, p, sec).value.unions == sec.unions
  {
    if PeekAt(t, p) == Some("{") {
      SectionLoopKeeps(t, p + 1, [], sec);
    }
  }

  /** A `union` declaration outside the public section is a failure. */
  lemma UnionOutsidePublicFails(t: seq<string>, p: nat, block: seq<string>, sec: Section)
    requires sec.vis != Public && TokensAt(t, p, ["union"])
    ensures !SectionLoop(t, p, block, sec).ok
  {
    TokenAt(t, p, ["union"], 0);
  }

  /** A section parse succeeds only by reading `}` then `;`, ending just after them. */
  lemma {:induction false} SectionLoopCloses(t: seq<string>, p: nat, block: seq<string>, sec: Section)
    requires p <= |t| && SectionLoop(t, p, block, sec).ok
    ensures ClosedBy(t, SectionLoop(t, p, block, sec).pos)
    decreases |t| - p
  {
    var tok := t[p];
    if DeclKeyword(tok) {
      var d := ReadDecl(t, p + 1, tok, sec);
      SectionLoopCloses(t, d.pos, block, d.value);
    } else if tok == ";" {
      var m := MethodOf(block);
      SectionLoopCloses(t, p + 1, [], sec.(methods := sec.methods + [m.value]));
    } else if tok != "}" {
      SectionLoopCloses(t, p + 1, block + [tok], sec);
    }
  }

  // ---------------------------------------------------------------------
  // The section loop read forward, one construct at a time.

  /** Tokens that neither start a declaration nor end a method or the section. */
  predicate PlainRun(b: seq<string>)
  {
    forall i :: 0 <= i < |b| ==> !DeclKeyword(b[i]) && b[i] != "}" && b[i] != ";"
  }

  /** Ordinary tokens are gathered into the pending method run. */
  lemma {:induction false} SectionLoopCollects(t: seq<string>, p: nat, block: seq<string>, sec: Section, b: seq<string>)
    requires TokensAt(t, p, b) && PlainRun(b)
    ensures SectionLoop(t, p, block, sec) == SectionLoop(t, p + |b|, block + b, sec)
    decreases |b|
  {
    if b == [] {
      assert block + b == block;
    } else {
      TokenAt(t, p, b, 0);
      assert b == [b[0]] + b[1..];
      TokensAtSplit(t, p, [b[0]], b[1..]);
      SectionLoopCollects(t, p + 1, block + [b[0]], sec, b[1..]);
      assert block + [b[0]] + b[1..] == block + b;
    }
  }

  /** A run closed by `;` is one method: appended when it parses, a failure
      otherwise. */
  lemma SectionLoopMethod(t: seq<string>, p: nat, sec: Section, run: seq<string>)
    requires TokensAt(t, p, run + [";"]) && PlainRun(run)
    ensures MethodOf(run).Err? ==> SectionLoop(t, p, [], sec) == Parsed(sec, p + |run| + 1, false)
    ensures MethodOf(run).Ok? ==>
      SectionLoop(t, p, [], sec) == SectionLoop(t, p + |run| + 1, [], sec.(methods := sec.methods + [MethodOf(run).value]))
  {
    assert p + |run| < |t| && t[p + |run|] == ";" by {
      TokensAtSplit(t, p, run, [";"]);
      TokenAt(t, p + |run|, [";"], 0);
    }
    SectionLoopGathers(t, p, sec, run);
    SectionLoopSemi(t, p, run, sec);
  }

  /** The tokens of a plain run are gathered into the pending block. */
  lemma SectionLoopGathers(t: seq<string>, p: nat, sec: Section, run: seq<string>)
    requires TokensAt(t, p, run + [";"]) && PlainRun(run)
    ensures SectionLoop(t, p, [], sec) == SectionLoop(t, p + |run|, run, sec)
  {
    TokensAtSplit(t, p, run, [";"]);
    assert [] + run == run;
    SectionLoopCollects(t, p, [], sec, run);
  }

  /** At a `;` the pending run becomes a method, or the parse fails. */
  lemma SectionLoopSemi(t: seq<string>, p: nat, block: seq<string>, sec: Section)
    requires p + |block| < |t| && t[p + |block|] == ";"
    ensures MethodOf(block).Err? ==> SectionLoop(t, p + |block|, block, sec) == Parsed(sec, p + |block| + 1, false)
    ensures MethodOf(block).Ok? ==>
      SectionLoop(t, p + |block|, block, sec)
        == SectionLoop(t, p + |block| + 1, [], sec.(methods := sec.methods + [MethodOf(block).value]))
  {
    assert PeekAt(t, p + |block|) == Some(";");
  }

  /** `typedef <tokens> ;` appends the typedef of those tokens. */
  lemma SectionLoopTypedef(t: seq<string>, p: nat, block: seq<string>, sec: Section, vals: seq<string>)
    requires TokensAt(t, p, ["typedef"] + (vals + [";"]))
    requires forall i :: 0 <= i < |vals| ==> vals[i] != ";"
    ensures SectionLoop(t, p, block, sec)
      == SectionLoop(t, p + |vals| + 2, block, sec.(typedefs := sec.typedefs + [TypedefOf(vals)]))
  {
    TokensAtSplit(t, p, ["typedef"], vals + [";"]);
    TokenAt(t, p, ["typedef"], 0);
    CollectUntilSemiReads(t, p + 1, [], vals);
    assert [] + vals == vals;
  }

  /** `const <tokens> ;` appends the const of those tokens unless its name
      is taken. */
  lemma SectionLoopConst(t: seq<string>, p: nat, block: seq<string>, sec: Section, vals: seq<string>)
    requires TokensAt(t, p, ["const"] + (vals + [";"]))
    requires |vals| >= 3 && forall i :: 0 <= i < |vals| ==> vals[i] != ";"
    ensures SectionLoop(t, p, block, sec)
      == SectionLoop(t, p + |vals| + 2, block,
           if ConstByName(sec, ConstOf(vals).name).Some? then sec
           else sec.(consts := sec.consts + [ConstOf(vals)]))
  {
    TokensAtSplit(t, p, ["const"], vals + [";"]);
    TokenAt(t, p, ["const"], 0);
    CollectUntilSemiReads(t, p + 1, [], vals);
    assert [] + vals == vals;
  }

  /** `}` `;` ends the section; a pending run without its `;` is dropped. */
  lemma SectionLoopEnds(t: seq<string>, p: nat, block: seq<string>, sec: Section)
    requires TokensAt(t, p, ["}", ";"])
    ensures SectionLoop(t, p, block, sec) == Parsed(sec, p + 2, true)
  {
    TokenAt(t, p, ["}", ";"], 0);
    TokenAt(t, p, ["}", ";"], 1);
  }

  /** `struct <n> { entries } ;` appends the struct of those entries unless
      a struct of that name exists; either way its tokens are consumed. */
  lemma SectionLoopStruct(t: seq<string>, p: nat, block: seq<string>, sec: Section, n: string, es: seq<MemberSource>)
    requires Structs.AllWellFormed(es)
    requires TokensAt(t, p, ["struct", n] + (["{"] + EntriesTokens(es) + ["}", ";"]))
    ensures SectionLoop(t, p, block, sec)
      == SectionLoop(t, p + |EntriesTokens(es)| + 5, block,
           if StructByName(sec, n).Some? then sec
           else sec.(structs := sec.structs + [Struct(Strip(n), EntriesMembers(es))]))
  {
    TokensAtSplit(t, p, ["struct", n], ["{"] + EntriesTokens(es) + ["}", ";"]);
    TokenAt(t, p, ["struct", n], 0);
    TokenAt(t, p, ["struct", n], 1);
    StructBodyAt(t, p + 2, es, NewStruct(n));
    assert [] + EntriesMembers(es) == EntriesMembers(es);
  }

  /** `{ struct S { long a ; } ; struct S { long b ; } ; } ;`: both bodies
      are read, the second struct `S` is dropped, and the section keeps the
      first, with its member `a`. */
  lemma DuplicateStructExample()
    ensures SectionBody(DuplicateStructSection(), 0, NewSection(Public))
      == Parsed(Section(Public, [], [Struct("S", [Member("a", Named("long"), "")])], [], [], [], []), 19, true)
  {
    var t := DuplicateStructSection();
    var sec0 := NewSection(Public);
    var ea := [Plain(["long", "a"])];
    var eb := [Plain(["long", "b"])];
    var sa := Struct("S", [Member("a", Named("long"), "")]);
    var sec1 := sec0.(structs := [sa]);
    DuplicateStructPieces();
    MemberLongA();
    assert Strip("S") == "S" by { StripClean("S"); }
    assert SectionBody(t, 0, sec0) == SectionLoop(t, 1, [], sec0);
    SectionLoopStruct(t, 1, [], sec0, "S", ea);
    assert sec0.(structs := sec0.structs + [Struct(Strip("S"), EntriesMembers(ea))]) == sec1;
    SectionLoopStruct(t, 9, [], sec1, "S", eb);
    assert StructByName(sec1, "S") == Some(sa);
    SectionLoopEnds(t, 17, [], sec1);
  }

  function DuplicateStructSection(): seq<string>
  {
    ["{", "struct", "S", "{", "long", "a", ";", "}", ";",
     "struct", "S", "{", "long", "b", ";", "}", ";", "}", ";"]
  }

  /** Where the pieces of the duplicate-struct section lie. */
  lemma DuplicateStructPieces()
    ensures |DuplicateStructSection()| == 19 && DuplicateStructSection()[0] == "{"
    ensures Structs.AllWellFormed([Plain(["long", "a"])]) && Structs.AllWellFormed([Plain(["long", "b"])])
    ensures |EntriesTokens([Plain(["long", "a"])])| == 3 && |EntriesTokens([Plain(["long", "b"])])| == 3
    ensures TokensAt(DuplicateStructSection(), 1,
              ["struct", "S"] + (["{"] + EntriesTokens([Plain(["long", "a"])]) + ["}", ";"]))
    ensures TokensAt(DuplicateStructSection(), 9,
              ["struct", "S"] + (["{"] + EntriesTokens([Plain(["long", "b"])]) + ["}", ";"]))
    ensures TokensAt(DuplicateStructSection(), 17, ["}", ";"])
  {
    var t := DuplicateStructSection();
    assert EntriesTokens([Plain(["long", "a"])]) == ["long", "a", ";"];
    assert EntriesTokens([Plain(["long", "b"])]) == ["long", "b", ";"];
    assert forall i :: 0 <= i < 8 ==> t[1 + i] == ["struct", "S", "{", "long", "a", ";", "}", ";"][i];
    assert forall i :: 0 <= i < 8 ==> t[9 + i] == ["struct", "S", "{", "long", "b", ";", "}", ";"][i];
  }

  /** The member block `long a` is the member `a` of type `long`. */
  lemma MemberLongA()
    ensures Structs.AllWellFormed([Plain(["long", "a"])])
    ensures EntriesMembers([Plain(["long", "a"])]) == [Member("a", Named("long"), "")]
  {
    ParseMemberFields(["long", "a"]);
    assert TypeTokens(["long", "a"]) == ["long"];
    StripClean("long");
  }

  /** `{ typedef long Count ; void ping @a ( ) ; } ;` in a public section. */
  lemma SectionExample()
    ensures SectionBody(ExampleSection(), 0, NewSection(Public))
      == Parsed(Section(Public, [Typedef("Count", ["long", "Count"])], [], [], [], [],
                        [Method("ping", Some("void"), "@a", Ordinary, [])]), 13, true)
  {
    var sec1 := ExampleAfterTypedef();
    ExampleSectionHead();
    ExampleSectionTail();
  }

  /** The section of the example once its typedef is read. */
  function ExampleAfterTypedef(): Section
  {
    Section(Public, [Typedef("Count", ["long", "Count"])], [], [], [], [], [])
  }

  /** The example's typedef is read first. */
  lemma ExampleSectionHead()
    ensures SectionBody(ExampleSection(), 0, NewSection(Public)) == SectionLoop(ExampleSection(), 5, [], ExampleAfterTypedef())
  {
    var t := ExampleSection();
    var sec0 := NewSection(Public);
    ExampleSectionPieces();
    assert SectionBody(t, 0, sec0) == SectionLoop(t, 1, [], sec0);
    SectionLoopTypedef(t, 1, [], sec0, ["long", "Count"]);
    assert sec0.(typedefs := sec0.typedefs + [TypedefOf(["long", "Count"])]) == ExampleAfterTypedef();
  }

  /** Then its method, and then the closing `};`. */
  lemma ExampleSectionTail()
    ensures SectionLoop(ExampleSection(), 5, [], ExampleAfterTypedef())
      == Parsed(Section(Public, [Typedef("Count", ["long", "Count"])], [], [], [], [],
                        [Method("ping", Some("void"), "@a", Ordinary, [])]), 13, true)
  {
    var t := ExampleSection();
    var sec1 := ExampleAfterTypedef();
    var m := Method("ping", Some("void"), "@a", Ordinary, []);
    var sec2 := sec1.(methods := sec1.methods + [m]);
    ExampleSectionPieces();
    SectionLoopMethod(t, 5, sec1, ["void", "ping", "@a", "(", ")"]);
    PingMethod();
    assert SectionLoop(t, 5, [], sec1) == SectionLoop(t, 11, [], sec2);
    SectionLoopEnds(t, 11, [], sec2);
    assert sec2 == Section(Public, [Typedef("Count", ["long", "Count"])], [], [], [], [], [m]);
  }

  function ExampleSection(): seq<string>
  {
    ["{", "typedef", "long", "Count", ";", "void", "ping", "@a", "(", ")", ";", "}", ";"]
  }

  /** Where the pieces of the example section lie. */
  lemma ExampleSectionPieces()
    ensures |ExampleSection()| == 13 && ExampleSection()[0] == "{"
    ensures TokensAt(ExampleSection(), 1, ["typedef"] + (["long", "Count"] + [";"]))
    ensures TokensAt(ExampleSection(), 5, ["void", "ping", "@a", "(", ")"] + [";"])
    ensures TokensAt(ExampleSection(), 11, ["}", ";"])
  {
    var t := ExampleSection();
    var run := ["void", "ping", "@a", "(", ")"];
    TokensAtInfix(["{"], ["typedef"] + (["long", "Count"] + [";"]), run + [";"] + ["}", ";"]);
    assert t == ["{"] + (["typedef"] + (["long", "Count"] + [";"])) + (run + [";"] + ["}", ";"]);
    TokensAtInfix(t[..5], run + [";"], ["}", ";"]);
    assert t == t[..5] + (run + [";"]) + ["}", ";"];
    TokensAtInfix(t[..11], ["}", ";"], []);
    assert t == t[..11] + ["}", ";"] + [];
  }

  /** The example's method run. */
  lemma PingMethod()
    ensures MethodOf(["void", "ping", "@a", "(", ")"]) == Ok(Method("ping", Some("void"), "@a", Ordinary, []))
  {
    MethodReads(Ordinary, "void", "ping", "@a", []);
    assert MethodTokens(Ordinary, "void", "ping", "@a", []) == ["void", "ping", "@a", "(", ")"];
  }

  // ---------------------------------------------------------------------
  // `find_types`: the declarations a type name refers to.

  datatype Kind = StructKind | UnionKind | TypedefKind | EnumKind

  /** A node `find_types` returns: the `IDLType` built for a primitive name,
      or a declaration with its kind, name and `full_path`. */
  datatype Found = TypeRef(typ: string) | Decl(kind: Kind, name: string, path: string)

  /** An element of a `find_types` result: a node, or the non-empty result
      list of a nested scope. */
  datatype Hit = Leaf(found: Found) | Group(hits: seq<Hit>)

  /** The nodes of a result in order, nested lists opened in place. */
  function Flatten(hs: seq<Hit>): seq<Found>
    decreases hs, 1
  {
    if hs == [] then [] else FlattenOne(hs[0]) + Flatten(hs[1..])
  }

  function FlattenOne(h: Hit): seq<Found>
    decreases h, 0
  {
    match h
    case Leaf(f) => [f]
    case Group(gs) => Flatten(gs)
  }

  /** Every nested list of a result is non-empty. */
  predicate WellGrouped(hs: seq<Hit>)
    decreases hs, 1
  {
    forall k :: 0 <= k < |hs| ==> WellGroupedOne(hs[k])
  }

  predicate WellGroupedOne(h: Hit)
    decreases h, 0
  {
    match h
    case Leaf(_) => true
    case Group(gs) => gs != [] && WellGrouped(gs)
  }

  lemma {:induction false} FlattenConcat(a: seq<Hit>, b: seq<Hit>)
    ensures Flatten(a + b) == Flatten(a) + Flatten(b)
    decreases |a|
  {
    if a == [] {
      assert a + b == b;
    } else {
      assert (a + b)[1..] == a[1..] + b;
      FlattenConcat(a[1..], b);
    }
  }

  lemma WellGroupedConcat(a: seq<Hit>, b: seq<Hit>)
    requires WellGrouped(a) && WellGrouped(b)
    ensures WellGrouped(a + b)
  {
    forall k | 0 <= k < |a + b| ensures WellGroupedOne((a + b)[k]) {
      if k < |a| { assert (a + b)[k] == a[k]; } else { assert (a + b)[k] == b[k - |a|]; }
    }
  }

  /** `parse_node`'s test: the name or the full path equals the stripped query. */
  predicate Matches(f: Found, q: string)
  {
    f.Decl? && (f.name == Strip(q) || f.path == Strip(q))
  }

  /** A declaration's `full_path` within a scope of path `scope`: a struct's
      is stripped; the others are the plain concatenation. */
  function DeclPath(k: Kind, scope: string, name: string): string
  {
    if k == StructKind then StructPath(scope, name) else scope + Sep + name
  }

  function Decls<T>(k: Kind, scope: string, xs: seq<T>, nameOf: T -> string): (r: seq<Found>)
    ensures |r| == |xs|
    ensures forall i :: 0 <= i < |xs| ==> r[i] == Decl(k, nameOf(xs[i]), DeclPath(k, scope, nameOf(xs[i])))
  {
    seq(|xs|, i requires 0 <= i < |xs| => Decl(k, nameOf(xs[i]), DeclPath(k, scope, nameOf(xs[i]))))
  }

  /** The nodes a section visits, in order: structs, unions (the public
      section only), typedefs, enums. Consts and methods are not visited. */
  function Candidates(sec: Section, scope: string): seq<Found>
  {
    Decls(StructKind, scope, sec.structs, StructName)
    + (if sec.vis == Public then Decls(UnionKind, scope, sec.unions, UnionName) else [])
    + Decls(TypedefKind, scope, sec.typedefs, TypedefName)
    + Decls(EnumKind, scope, sec.enums, EnumName)
  }

  /** The nodes of `fs` that match `q`, in order. */
  function Select(fs: seq<Found>, q: string): (r: seq<Found>)
    ensures |r| <= |fs|
    decreases |fs|
  {
    if fs == [] then []
    else if Matches(fs[0], q) then [fs[0]] + Select(fs[1..], q)
    else Select(fs[1..], q)
  }

  /** Exactly the matching nodes are selected. */
  lemma {:induction false} SelectMembers(fs: seq<Found>, q: string)
    ensures forall f :: f in Select(fs, q) <==> f in fs && Matches(f, q)
    decreases |fs|
  {
    if fs != [] {
      SelectMembers(fs[1..], q);
      assert forall f :: f in fs <==> f == fs[0] || f in fs[1..];
    }
  }

  /** The first node selected is the first node that matches. */
  lemma {:induction false} SelectFirst(fs: seq<Found>, q: string)
    requires Select(fs, q) != []
    ensures exists i :: 0 <= i < |fs| && fs[i] == Select(fs, q)[0] && Matches(fs[i], q)
                        && forall j :: 0 <= j < i ==> !Matches(fs[j], q)
    decreases |fs|
  {
    if !Matches(fs[0], q) {
      SelectFirst(fs[1..], q);
      var i :| 0 <= i < |fs[1..]| && fs[1..][i] == Select(fs[1..], q)[0] && Matches(fs[1..][i], q)
               && forall j :: 0 <= j < i ==> !Matches(fs[1..][j], q);
      assert fs[i + 1] == fs[1..][i];
      assert forall j :: 1 <= j <= i ==> fs[j] == fs[1..][j - 1];
    }
  }

  lemma {:induction false} SelectConcat(a: seq<Found>, b: seq<Found>, q: string)
    ensures Select(a + b, q) == Select(a, q) + Select(b, q)
    decreases |a|
  {
    if a == [] {
      assert a + b == b;
    } else {
      assert (a + b)[1..] == a[1..] + b;
      SelectConcat(a[1..], b, q);
    }
  }

  function Leaves(fs: seq<Found>): (r: seq<Hit>)
    ensures |r| == |fs| && forall i :: 0 <= i < |fs| ==> r[i] == Leaf(fs[i])
  {
    seq(|fs|, i requires 0 <= i < |fs| => Leaf(fs[i]))
  }

  /** A section's `find_types(q)`: a primitive name yields its type node;
      otherwise every visited declaration matching `q`, in visiting order. */
  function SectionFind(sec: Section, scope: string, q: string, prims: set<string>): (r: seq<Hit>)
    ensures q in prims ==> r == [Leaf(TypeRef(q))]
  {
    if q in prims then [Leaf(TypeRef(q))]
    else Leaves(Select(Candidates(sec, scope), q))
  }

  /** For a name that is not primitive, a section's `find_types` yields
      exactly the visited declarations that match, each as a node. */
  lemma SectionFindMembers(sec: Section, scope: string, q: string, prims: set<string>)
    requires q !in prims
    ensures forall h :: h in SectionFind(sec, scope, q, prims) <==>
      h.Leaf? && h.found in Candidates(sec, scope) && Matches(h.found, q)
  {
    SelectMembers(Candidates(sec, scope), q);
    LeavesMembers(Select(Candidates(sec, scope), q));
  }

  lemma LeavesMembers(fs: seq<Found>)
    ensures forall h :: h in Leaves(fs) <==> h.Leaf? && h.found in fs
  {
    forall h: Hit | h.Leaf? && h.found in fs ensures h in Leaves(fs) {
      var i :| 0 <= i < |fs| && fs[i] == h.found;
      assert Leaves(fs)[i] == h;
    }
  }

  /** A protected or private section's `find_types` never yields a union. */
  lemma SectionFindNoUnion(sec: Section, scope: string, q: string, prims: set<string>)
    requires sec.vis != Public
    ensures forall h :: h in SectionFind(sec, scope, q, prims) ==> !(h.Leaf? && h.found.Decl? && h.found.kind == UnionKind)
  {
    var a := Decls(StructKind, scope, sec.structs, StructName);
    var c := Decls(TypedefKind, scope, sec.typedefs, TypedefName);
    var d := Decls(EnumKind, scope, sec.enums, EnumName);
    assert Candidates(sec, scope) == a + [] + c + d;
    if q !in prims {
      SectionFindMembers(sec, scope, q, prims);
    }
  }

  lemma LeavesConcat(a: seq<Found>, b: seq<Found>)
    ensures Leaves(a + b) == Leaves(a) + Leaves(b)
  {
  }

  /** One more node visited. */
  lemma SelectSnoc(fs: seq<Found>, i: nat, q: string)
    requires i < |fs|
    ensures Leaves(Select(fs[..i + 1], q)) == Leaves(Select(fs[..i], q)) + (if Matches(fs[i], q) then [Leaf(fs[i])] else [])
  {
    assert fs[..i + 1] == fs[..i] + [fs[i]];
    SelectConcat(fs[..i], [fs[i]], q);
    assert [fs[i]][1..] == [];
    LeavesConcat(Select(fs[..i], q), Select([fs[i]], q));
  }

  /** The visits of one list as a loop: each matching node is appended. */
  method AppendMatching(hits: seq<Hit>, fs: seq<Found>, q: string) returns (out: seq<Hit>)
    ensures out == hits + Leaves(Select(fs, q))
  {
    out := hits;
    for i := 0 to |fs|
      invariant out == hits + Leaves(Select(fs[..i], q))
    {
      SelectSnoc(fs, i, q);
      if Matches(fs[i], q) {
        out := out + [Leaf(fs[i])];
      }
    }
    assert fs[..|fs|] == fs;
  }

  /** A section's `find_types` as the loops it is. */
  method SectionFindTypes(sec: Section, scope: string, q: string, prims: set<string>) returns (hits: seq<Hit>)
    ensures hits == SectionFind(sec, scope, q, prims)
  {
    if q in prims {
      return [Leaf(TypeRef(q))];
    }
    var a := Decls(StructKind, scope, sec.structs, StructName);
    var b: seq<Found> := if sec.vis == Public then Decls(UnionKind, scope, sec.unions, UnionName) else [];
    var c := Decls(TypedefKind, scope, sec.typedefs, TypedefName);
    var d := Decls(EnumKind, scope, sec.enums, EnumName);
    hits := AppendLists(a, b, c, d, sec.vis == Public, q);
    CandidatesSplit(sec, scope, q);
  }

  /** The four `for_each_*` visits in turn; the union list only when
      `unions` holds. */
  method AppendLists(a: seq<Found>, b: seq<Found>, c: seq<Found>, d: seq<Found>, unions: bool, q: string)
      returns (hits: seq<Hit>)
    requires !unions ==> b == []
    ensures hits == Leaves(Select(a, q)) + Leaves(Select(b, q)) + Leaves(Select(c, q)) + Leaves(Select(d, q))
  {
    hits := AppendMatching([], a, q);
    assert hits == Leaves(Select(a, q));
    if unions {
      hits := AppendMatching(hits, b, q);
    } else {
      assert Leaves(Select(b, q)) == [];
      assert hits == Leaves(Select(a, q)) + Leaves(Select(b, q));
    }
    hits := AppendMatching(hits, c, q);
    hits := AppendMatching(hits, d, q);
  }

  /** The matches of a section's candidates, list by list. */
  lemma CandidatesSplit(sec: Section, scope: string, q: string)
    ensures var a := Decls(StructKind, scope, sec.structs, StructName);
            var b: seq<Found> := if sec.vis == Public then Decls(UnionKind, scope, sec.unions, UnionName) else [];
            var c := Decls(TypedefKind, scope, sec.typedefs, TypedefName);
            var d := Decls(EnumKind, scope, sec.enums, EnumName);
            Leaves(Select(Candidates(sec, scope), q))
            == Leaves(Select(a, q)) + Leaves(Select(b, q)) + Leaves(Select(c, q)) + Leaves(Select(d, q))
  {
    var a := Decls(StructKind, scope, sec.structs, StructName);
    var b: seq<Found> := if sec.vis == Public then Decls(UnionKind, scope, sec.unions, UnionName) else [];
    var c := Decls(TypedefKind, scope, sec.typedefs, TypedefName);
    var d := Decls(EnumKind, scope, sec.enums, EnumName);
    SelectAppend(a, b, q);
    SelectAppend(a + b, c, q);
    SelectAppend(a + b + c, d, q);
  }

  /** Visiting one more list appends the matches in it. */
  lemma SelectAppend(a: seq<Found>, b: seq<Found>, q: string)
    ensures Leaves(Select(a, q)) + Leaves(Select(b, q)) == Leaves(Select(a + b, q))
  {
    SelectConcat(a, b, q);
    LeavesConcat(Select(a, q), Select(b, q));
  }

  /** A section's result holds no nested list, and its nodes are the
      matching visited declarations in visiting order. */
  lemma {:induction false} LeavesFlat(fs: seq<Found>)
    ensures Flatten(Leaves(fs)) == fs && WellGrouped(Leaves(fs))
    decreases |fs|
  {
    if fs != [] {
      assert Leaves(fs)[1..] == Leaves(fs[1..]);
      LeavesFlat(fs[1..]);
    }
  }

  lemma SectionFindFlat(sec: Section, scope: string, q: string, prims: set<string>)
    requires q !in prims
    ensures Flatten(SectionFind(sec, scope, q, prims)) == Select(Candidates(sec, scope), q)
    ensures WellGrouped(SectionFind(sec, scope, q, prims))
  {
    LeavesFlat(Select(Candidates(sec, scope), q));
  }
}
