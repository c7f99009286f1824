/** `IDLModule`: modules nest modules and interfaces. The root is the global
    module, which needs no braces and may end with the token buffer. */
module Modules {
  import opened Wrappers
  import opened Node
  import opened Tokens
  import opened Sections
  import opened Interfaces

  const GlobalName := "__global__"

  datatype Module = Module(name: string, modules: seq<Module>, interfaces: seq<Interface>)

  /** `IDLModule(name)`: without a name it is the global module. */
  function NewModule(name: Option<string>): (m: Module)
    ensures m.modules == [] && m.interfaces == []
    ensures m.name == if name.Some? then name.value else GlobalName
  {
    Module(if name.Some? then name.value else GlobalName, [], [])
  }

  predicate IsGlobal(m: Module)
  {
    m.name == GlobalName
  }

  /** The `full_path` of a module named `name` inside a module whose
      `full_path` is `scope`: the root's path is empty, and a module under a
      scope with an empty path is its bare name. */
  function ChildPath(scope: string, name: string): (r: string)
    ensures scope == "" ==> r == name
    ensures scope != "" ==> r == scope + Sep + name
  {
    if |scope| == 0 then name else scope + Sep + name
  }

  /** `module_by_name(name)`: the index of the first submodule with that
      name, or the length of the list. A missing name matches nothing. */
  function ModuleIndex(ms: seq<Module>, name: Option<string>): (k: nat)
    ensures k <= |ms|
    ensures k < |ms| ==> name == Some(ms[k].name)
    ensures forall j :: 0 <= j < k ==> name != Some(ms[j].name)
    decreases |ms|
  {
    if ms == [] then 0
    else if name == Some(ms[0].name) then 0
    else 1 + ModuleIndex(ms[1..], name)
  }

  /** `interface_by_name(name)`: names are compared as popped, so a missing
      name finds an interface created from a missing name. */
  function InterfaceIndex(ifs: seq<Interface>, name: Option<string>): (k: nat)
    ensures k <= |ifs|
    ensures k < |ifs| ==> ifs[k].name == name
    ensures forall j :: 0 <= j < k ==> ifs[j].name != name
    decreases |ifs|
  {
    if ifs == [] then 0
    else if ifs[0].name == name then 0
    else 1 + InterfaceIndex(ifs[1..], name)
  }

  /** `parse_tokens(token_buf)`: a module other than the global one starts
      with `{`. */
  function ModuleBody(t: seq<string>, p: nat, m: Module): (r: Parsed<Module>)
    requires p <= |t|
    ensures p <= r.pos <= |t|
    ensures r.value.name == m.name
    decreases |t| - p, 1
  {
    if IsGlobal(m) then ModuleLoop(t, p, m)
    else if PeekAt(t, p) != Some("{") then Parsed(m, NextAt(t, p), false)
    else ModuleLoop(t, p + 1, m)
  }

  /** After `module`: the name is popped, the submodule of that name found or
      created and appended, then parsed in place. */
  function ReadSubmodule(t: seq<string>, q: nat, m: Module): (r: Parsed<Module>)
    requires q <= |t|
    ensures q <= r.pos <= |t|
    ensures r.value.name == m.name
    decreases |t| - q, 2
  {
    var name := PeekAt(t, q);
    var k := ModuleIndex(m.modules, name);
    var ms := if k == |m.modules| then m.modules + [NewModule(name)] else m.modules;
    var r := ModuleBody(t, NextAt(t, q), ms[k]);
    Parsed(m.(modules := ms[k := r.value]), r.pos, r.ok)
  }

  /** After `interface`: the same for interfaces. */
  function ReadInterface(t: seq<string>, q: nat, m: Module): (r: Parsed<Module>)
    requires q <= |t|
    ensures q <= r.pos <= |t|
    ensures r.value.name == m.name && r.value.modules == m.modules
  {
    var name := PeekAt(t, q);
    var k := InterfaceIndex(m.interfaces, name);
    var ifs := if k == |m.interfaces| then m.interfaces + [NewInterface(name)] else m.interfaces;
    var r := InterfaceBody(t, NextAt(t, q), ifs[k]);
    Parsed(m.(interfaces := ifs[k := r.value]), r.pos, r.ok)
  }

  /** The `while True` loop: `module`, `interface`, and `}` `;` to finish;
      the end of the buffer finishes the global module and fails any other.
      Every other token is skipped. */
  function ModuleLoop(t: seq<string>, p: nat, m: Module): (r: Parsed<Module>)
    requires p <= |t|
    ensures p <= r.pos <= |t|
    ensures r.value.name == m.name
    decreases |t| - p, 0
  {
    match PeekAt(t, p)
    case None => Parsed(m, p, IsGlobal(m))
    case Some(tok) =>
      if tok == "module" then
        var r := ReadSubmodule(t, p + 1, m);
        if !r.ok then r else ModuleLoop(t, r.pos, r.value)
      else if tok == "interface" then
        var r := ReadInterface(t, p + 1, m);
        if !r.ok then r else ModuleLoop(t, r.pos, r.value)
      else if tok == "}" then Parsed(m, NextAt(t, p + 1), PeekAt(t, p + 1) == Some(";"))
      else ModuleLoop(t, p + 1, m)
  }

  /** `parse_tokens` as the loop it is, recursive for submodules. */
  method ParseModuleTokens(ts: TokenStream, m0: Module) returns (m: Module, ok: bool)
    requires ts.Valid()
    modifies ts
    ensures ts.Valid()
    ensures ModuleBody(ts.tokens, old(ts.pos), m0) == Parsed(m, ts.pos, ok)
    decreases |ts.tokens| - ts.pos
  {
    m := m0;
    if !IsGlobal(m) {
      var brace := ts.Pop();
      if brace != Some("{") {
        return m, false;
      }
    }
    while true
      invariant ts.Valid() && old(ts.pos) <= ts.pos
      invariant ModuleLoop(ts.tokens, ts.pos, m) == ModuleBody(ts.tokens, old(ts.pos), m0)
      decreases |ts.tokens| - ts.pos
    {
      ghost var p := ts.pos;
      var tok := ts.Pop();
      if tok.None? {
        return m, IsGlobal(m);
      }
      if tok.value == "module" {
        var name := ts.Pop();
        var k := ModuleIndex(m.modules, name);
        var ms := m.modules;
        if k == |ms| {
          ms := ms + [NewModule(name)];
        }
        var sub, sok := ParseModuleTokens(ts, ms[k]);
        m := m.(modules := ms[k := sub]);
        if !sok {
          return m, false;
        }
      } else if tok.value == "interface" {
        var name := ts.Pop();
        var k := InterfaceIndex(m.interfaces, name);
        var ifs := m.interfaces;
        if k == |ifs| {
          ifs := ifs + [NewInterface(name)];
        }
        var i, iok := ParseInterfaceTokens(ts, ifs[k]);
        m := m.(interfaces := ifs[k := i]);
        if !iok {
          return m, false;
        }
      } else if tok.value == "}" {
        var semi := ts.Pop();
        return m, semi == Some(";");
      }
    }
  }

  // ---------------------------------------------------------------------
  // What a module parse keeps.

  /** The tree as the parser builds it: interfaces of one module have
      distinct names; two submodules share a name only when it is the global
      name (a `module` at the end of the buffer creates a module of that name
      without looking it up); every interface is shaped; and so on down. */
  predicate ModuleShaped(m: Module)
    decreases m
  {
    && (forall i, j :: 0 <= i < j < |m.modules| && m.modules[i].name == m.modules[j].name
          ==> m.modules[i].name == GlobalName)
    && (forall i, j :: 0 <= i < j < |m.interfaces| ==> m.interfaces[i].name != m.interfaces[j].name)
    && (forall k :: 0 <= k < |m.interfaces| ==> Shaped(m.interfaces[k]))
    && (forall k :: 0 <= k < |m.modules| ==> ModuleShaped(m.modules[k]))
  }

  lemma {:induction false} ModuleBodyKeeps(t: seq<string>, p: nat, m: Module)
    requires p <= |t| && Stripped(t) && ModuleShaped(m)
    ensures ModuleShaped(ModuleBody(t, p, m).value)
    decreases |t| - p, 1
  {
    if IsGlobal(m) {
      ModuleLoopKeeps(t, p, m);
    } else if PeekAt(t, p) == Some("{") {
      ModuleLoopKeeps(t, p + 1, m);
    }
  }

  lemma {:induction false} ReadSubmoduleKeeps(t: seq<string>, q: nat, m: Module)
    requires q <= |t| && Stripped(t) && ModuleShaped(m)
    ensures ModuleShaped(ReadSubmodule(t, q, m).value)
    decreases |t| - q, 2
  {
    var name := PeekAt(t, q);
    var k := ModuleIndex(m.modules, name);
    var ms := if k == |m.modules| then m.modules + [NewModule(name)] else m.modules;
    assert ModuleShaped(ms[k]) by {
      if k < |m.modules| {
        assert ms[k] == m.modules[k];
      }
    }
    ModuleBodyKeeps(t, NextAt(t, q), ms[k]);
    var r := ModuleBody(t, NextAt(t, q), ms[k]);
    SubmodulePlaced(m, name, r.value);
  }

  /** Putting a shaped submodule of the looked-up name into its slot keeps
      the module shaped. */
  lemma SubmodulePlaced(m: Module, name: Option<string>, x: Module)
    requires ModuleShaped(m) && ModuleShaped(x)
    requires var k := ModuleIndex(m.modules, name);
             x.name == if k == |m.modules| then NewModule(name).name else m.modules[k].name
    ensures var k := ModuleIndex(m.modules, name);
            var ms := if k == |m.modules| then m.modules + [NewModule(name)] else m.modules;
            ModuleShaped(m.(modules := ms[k := x]))
  {
    var k := ModuleIndex(m.modules, name);
    var ms := if k == |m.modules| then m.modules + [NewModule(name)] else m.modules;
    var ms' := ms[k := x];
    forall j | 0 <= j < |ms'| ensures ModuleShaped(ms'[j]) {
      if j != k {
        assert ms'[j] == m.modules[j];
      }
    }
    forall i, j | 0 <= i < j < |ms'| && ms'[i].name == ms'[j].name
      ensures ms'[i].name == GlobalName
    {
      if j == |m.modules| {
        assert ms'[i] == m.modules[i];
      } else if i != k && j != k {
        assert ms'[i] == m.modules[i] && ms'[j] == m.modules[j];
      } else if i == k {
        assert ms'[j] == m.modules[j];
      }
    }
  }

  lemma ReadInterfaceKeeps(t: seq<string>, q: nat, m: Module)
    requires q <= |t| && Stripped(t) && ModuleShaped(m)
    ensures ModuleShaped(ReadInterface(t, q, m).value)
  {
    var name := PeekAt(t, q);
    var k := InterfaceIndex(m.interfaces, name);
    var ifs := if k == |m.interfaces| then m.interfaces + [NewInterface(name)] else m.interfaces;
    assert forall j :: 0 <= j < |ifs| ==> Shaped(ifs[j]) by {
      forall j | 0 <= j < |ifs| ensures Shaped(ifs[j]) {
        if j < |m.interfaces| {
          assert ifs[j] == m.interfaces[j];
        } else {
          assert forall v :: SectionsOf(ifs[j], v) == [];
        }
      }
    }
    InterfaceBodyKeeps(t, NextAt(t, q), ifs[k]);
    var ifs' := ifs[k := InterfaceBody(t, NextAt(t, q), ifs[k]).value];
    forall i, j | 0 <= i < j < |ifs'| ensures ifs'[i].name != ifs'[j].name {
      assert ifs'[i].name == ifs[i].name && ifs'[j].name == ifs[j].name;
      if j == |m.interfaces| {
        assert ifs[i] == m.interfaces[i];
      } else {
        assert ifs[i] == m.interfaces[i] && ifs[j] == m.interfaces[j];
      }
    }
  }

  /** Every parse, successful or not, leaves a shaped tree. */
  lemma {:induction false} ModuleLoopKeeps(t: seq<string>, p: nat, m: Module)
    requires p <= |t| && Stripped(t) && ModuleShaped(m)
    ensures ModuleShaped(ModuleLoop(t, p, m).value)
    decreases |t| - p, 0
  {
    if p < |t| {
      var tok := t[p];
      if tok == "module" {
        var r := ReadSubmodule(t, p + 1, m);
        ReadSubmoduleKeeps(t, p + 1, m);
        if r.ok {
          ModuleLoopKeeps(t, r.pos, r.value);
        }
      } else if tok == "interface" {
        var r := ReadInterface(t, p + 1, m);
        ReadInterfaceKeeps(t, p + 1, m);
        if r.ok {
          ModuleLoopKeeps(t, r.pos, r.value);
        }
      } else if tok != "}" {
        ModuleLoopKeeps(t, p + 1, m);
      }
    }
  }

  /** How a successful module parse ends at `q`: at the end of the buffer
      for the global module, or just after `}` `;`. */
  predicate ClosedAt(t: seq<string>, q: nat, m: Module)
  {
    (q == |t| && IsGlobal(m)) || ClosedBy(t, q)
  }

  /** A module parse succeeds only at the end of the buffer for the global
      module, or by reading `}` then `;`. */
  lemma {:induction false} ModuleLoopCloses(t: seq<string>, p: nat, m: Module)
    requires p <= |t| && ModuleLoop(t, p, m).ok
    ensures ClosedAt(t, ModuleLoop(t, p, m).pos, m)
    decreases |t| - p
  {
    if p < |t| {
      var tok := t[p];
      if tok == "module" {
        var r := ReadSubmodule(t, p + 1, m);
        ModuleLoopCloses(t, r.pos, r.value);
        assert IsGlobal(r.value) == IsGlobal(m);
      } else if tok == "interface" {
        var r := ReadInterface(t, p + 1, m);
        ModuleLoopCloses(t, r.pos, r.value);
        assert IsGlobal(r.value) == IsGlobal(m);
      } else if tok != "}" {
        ModuleLoopCloses(t, p + 1, m);
      }
    }
  }

  /** The other tokens of a module body: none of the branches of the loop. */
  predicate ModuleKeyword(tok: string)
  {
    tok == "module" || tok == "interface" || tok == "}"
  }

  /** A run of tokens that are neither `module`, `interface` nor `}` is
      skipped without changing the module. */
  lemma {:induction false} ModuleLoopSkips(t: seq<string>, p: nat, n: nat, m: Module)
    requires p + n <= |t|
    requires forall i :: p <= i < p + n ==> !ModuleKeyword(t[i])
    ensures ModuleLoop(t, p, m) == ModuleLoop(t, p + n, m)
    decreases n
  {
    if n > 0 {
      ModuleLoopSkips(t, p + 1, n - 1, m);
    }
  }

  /** How a module body starts and ends: a module other than the global one
      fails unless it opens with `{`; the end of the buffer ends the global
      module normally and fails any other; `}` must be followed by `;`. */
  lemma ModuleBodyEdges(t: seq<string>, p: nat, m: Module)
    requires p <= |t|
    ensures !IsGlobal(m) && PeekAt(t, p) != Some("{") ==> !ModuleBody(t, p, m).ok
    ensures ModuleLoop(t, |t|, m) == Parsed(m, |t|, IsGlobal(m))
    ensures p < |t| && t[p] == "}" ==>
              ModuleLoop(t, p, m) == Parsed(m, NextAt(t, p + 1), p + 1 < |t| && t[p + 1] == ";")
  {
  }

  /** `module X` finds or creates the submodule named `X` and attaches it
      before its body is parsed: a new one is appended even when its body
      fails, an existing one is replaced where it stands, and the other
      submodules are untouched. */
  lemma ReadSubmoduleAppends(t: seq<string>, q: nat, m: Module)
    requires q <= |t|
    ensures var r := ReadSubmodule(t, q, m);
            var name := if q < |t| then t[q] else GlobalName;
            var k := ModuleIndex(m.modules, PeekAt(t, q));
            && (k == |m.modules| ==> |r.value.modules| == |m.modules| + 1)
            && (k < |m.modules| ==> |r.value.modules| == |m.modules|)
            && r.value.modules[k].name == name
            && (forall j :: 0 <= j < |m.modules| && j != k ==> r.value.modules[j] == m.modules[j])
            && r.value.interfaces == m.interfaces
  {
  }

  /** `interface X` likewise for interfaces. */
  lemma ReadInterfaceAppends(t: seq<string>, q: nat, m: Module)
    requires q <= |t|
    ensures var r := ReadInterface(t, q, m);
            var k := InterfaceIndex(m.interfaces, PeekAt(t, q));
            && (k == |m.interfaces| ==> |r.value.interfaces| == |m.interfaces| + 1)
            && (k < |m.interfaces| ==> |r.value.interfaces| == |m.interfaces|)
            && r.value.interfaces[k].name == PeekAt(t, q)
            && (forall j :: 0 <= j < |m.interfaces| && j != k ==> r.value.interfaces[j] == m.interfaces[j])
  {
  }

  /** A whole buffer: `module A { interface I { }; };` under the global
      module gives one submodule `A` holding one empty interface `I`. */
  lemma ModuleExample()
    ensures ModuleBody(ExampleBuffer(), 0, NewModule(None))
            == Parsed(Module(GlobalName, [Module("A", [], [NewInterface(Some("I"))])], []), 10, true)
  {
    var t := ExampleBuffer();
    var g := Module(GlobalName, [Module("A", [], [NewInterface(Some("I"))])], []);
    ExampleSubmoduleRead();
    assert ModuleLoop(t, 10, g) == Parsed(g, 10, true);
  }

  /** `module A { ... };` read into the global module. */
  lemma ExampleSubmoduleRead()
    ensures ReadSubmodule(ExampleBuffer(), 1, NewModule(None))
            == Parsed(Module(GlobalName, [Module("A", [], [NewInterface(Some("I"))])], []), 10, true)
  {
    var t := ExampleBuffer();
    var g := NewModule(None);
    var a := Module("A", [], [NewInterface(Some("I"))]);
    assert t[1] == "A";
    assert ModuleIndex(g.modules, Some(t[1])) == |g.modules|;
    ReadNewSubmodule(t, 1, g);
    ExampleSubmoduleBody();
    assert ModuleBody(t, 1 + 1, NewModule(Some(t[1]))) == Parsed(a, 10, true);
    assert g.(modules := g.modules + [a]) == Module(GlobalName, [a], []);
  }

  /** A name no submodule has yet: the new submodule is appended with its
      body parsed. */
  lemma ReadNewSubmodule(t: seq<string>, q: nat, m: Module)
    requires q < |t| && ModuleIndex(m.modules, Some(t[q])) == |m.modules|
    ensures ReadSubmodule(t, q, m)
            == Parsed(m.(modules := m.modules + [ModuleBody(t, q + 1, NewModule(Some(t[q]))).value]),
                      ModuleBody(t, q + 1, NewModule(Some(t[q]))).pos,
                      ModuleBody(t, q + 1, NewModule(Some(t[q]))).ok)
  {
    assert PeekAt(t, q) == Some(t[q]) && NextAt(t, q) == q + 1;
    var ms := m.modules + [NewModule(Some(t[q]))];
    assert ms[|m.modules| := ModuleBody(t, q + 1, NewModule(Some(t[q]))).value]
        == m.modules + [ModuleBody(t, q + 1, NewModule(Some(t[q]))).value];
  }

  /** `module A { interface I { }; };` */
  function ExampleBuffer(): seq<string>
  {
    ["module", "A", "{", "interface", "I", "{", "}", ";", "}", ";"]
  }

  /** The example's interface `I` is read into submodule `A`. */
  lemma ExampleInterfaceRead()
    ensures ReadInterface(ExampleBuffer(), 4, NewModule(Some("A")))
            == Parsed(Module("A", [], [NewInterface(Some("I"))]), 8, true)
  {
    var t := ExampleBuffer();
    var i := NewInterface(Some("I"));
    assert MarkerOf("}") == None;
    assert InterfaceBody(t, 5, i) == Parsed(i, 8, true);
    assert PeekAt(t, 4) == Some("I") && NextAt(t, 4) == 5;
    assert InterfaceIndex([], Some("I")) == 0;
    assert ([] + [i])[0 := i] == [i];
  }

  /** The body of submodule `A` holds the interface and ends at `};`. */
  lemma ExampleSubmoduleBody()
    ensures ModuleBody(ExampleBuffer(), 2, NewModule(Some("A")))
            == Parsed(Module("A", [], [NewInterface(Some("I"))]), 10, true)
  {
    var t := ExampleBuffer();
    var a := Module("A", [], [NewInterface(Some("I"))]);
    ExampleInterfaceRead();
    assert ModuleLoop(t, 8, a) == Parsed(a, 10, true);
  }

  // ---------------------------------------------------------------------
  // Lookups.

  /** `module_by_name(name)`. */
  function ModuleByName(m: Module, name: Option<string>): (r: Option<Module>)
    ensures r.Some? ==> name == Some(r.value.name) && r.value in m.modules
    ensures r.None? ==> forall s :: s in m.modules ==> name != Some(s.name)
  {
    var k := ModuleIndex(m.modules, name);
    if k < |m.modules| then Some(m.modules[k]) else None
  }

  /** `interface_by_name(name)`. */
  function InterfaceByName(m: Module, name: Option<string>): (r: Option<Interface>)
    ensures r.Some? ==> r.value.name == name && r.value in m.interfaces
    ensures r.None? ==> forall i :: i in m.interfaces ==> i.name != name
  {
    var k := InterfaceIndex(m.interfaces, name);
    if k < |m.interfaces| then Some(m.interfaces[k]) else None
  }

  // ---------------------------------------------------------------------
  // `find_types`: submodules first, depth first, then the module's own
  // interfaces, all into one shared result list.

  /** The text an interface's path is built from. */
  function InterfaceNameText(i: Interface): string
  {
    if i.name.Some? then i.name.value else ""
  }

  /** An interface's result, as the module appends it: one nested list, or
      nothing when it is empty. */
  function InterfaceGroup(i: Interface, scope: string, q: string, prims: set<string>): seq<Hit>
  {
    var r := InterfaceFind(i, InterfacePath(scope, InterfaceNameText(i)), q, prims);
    if r == [] then [] else [Group(r)]
  }

  function InterfaceGroups(ifs: seq<Interface>, scope: string, q: string, prims: set<string>): seq<Hit>
    decreases |ifs|
  {
    if ifs == [] then [] else InterfaceGroup(ifs[0], scope, q, prims) + InterfaceGroups(ifs[1..], scope, q, prims)
  }

  /** `parse_module(m)` on the module whose `full_path` is `path`: what it
      appends to the shared list. */
  function ModuleCollect(m: Module, path: string, q: string, prims: set<string>): seq<Hit>
    decreases m, 1
  {
    SubmodulesCollect(m.modules, path, q, prims) + InterfaceGroups(m.interfaces, path, q, prims)
  }

  function SubmodulesCollect(ms: seq<Module>, scope: string, q: string, prims: set<string>): seq<Hit>
    decreases ms, 0
  {
    if ms == [] then []
    else ModuleCollect(ms[0], ChildPath(scope, ms[0].name), q, prims) + SubmodulesCollect(ms[1..], scope, q, prims)
  }

  /** A module's `find_types(q)`: a primitive name yields its type node;
      otherwise what the depth-first visit collects. */
  function ModuleFind(m: Module, path: string, q: string, prims: set<string>): (r: seq<Hit>)
    ensures q in prims ==> r == [Leaf(TypeRef(q))]
  {
    if q in prims then [Leaf(TypeRef(q))] else ModuleCollect(m, path, q, prims)
  }

  /** The declarations the depth-first visit reaches, in order. */
  function ModuleDecls(m: Module, path: string): seq<Found>
    decreases m, 1
  {
    SubmodulesDecls(m.modules, path) + InterfacesDecls(m.interfaces, path)
  }

  function SubmodulesDecls(ms: seq<Module>, scope: string): seq<Found>
    decreases ms, 0
  {
    if ms == [] then []
    else ModuleDecls(ms[0], ChildPath(scope, ms[0].name)) + SubmodulesDecls(ms[1..], scope)
  }

  function InterfacesDecls(ifs: seq<Interface>, scope: string): seq<Found>
    decreases |ifs|
  {
    if ifs == [] then []
    else InterfaceDecls(ifs[0], InterfacePath(scope, InterfaceNameText(ifs[0]))) + InterfacesDecls(ifs[1..], scope)
  }

  lemma InterfaceGroupFlat(i: Interface, scope: string, q: string, prims: set<string>)
    requires q !in prims
    ensures Flatten(InterfaceGroup(i, scope, q, prims)) == Select(InterfaceDecls(i, InterfacePath(scope, InterfaceNameText(i))), q)
    ensures WellGrouped(InterfaceGroup(i, scope, q, prims))
  {
    var r := InterfaceFind(i, InterfacePath(scope, InterfaceNameText(i)), q, prims);
    InterfaceFindFlat(i, InterfacePath(scope, InterfaceNameText(i)), q, prims);
    if r != [] {
      assert [Group(r)][1..] == [];
    }
  }

  lemma {:induction false} InterfaceGroupsFlat(ifs: seq<Interface>, scope: string, q: string, prims: set<string>)
    requires q !in prims
    ensures Flatten(InterfaceGroups(ifs, scope, q, prims)) == Select(InterfacesDecls(ifs, scope), q)
    ensures WellGrouped(InterfaceGroups(ifs, scope, q, prims))
    decreases |ifs|
  {
    if ifs != [] {
      var g := InterfaceGroup(ifs[0], scope, q, prims);
      InterfaceGroupsFlat(ifs[1..], scope, q, prims);
      InterfaceGroupFlat(ifs[0], scope, q, prims);
      FlattenConcat(g, InterfaceGroups(ifs[1..], scope, q, prims));
      SelectConcat(InterfaceDecls(ifs[0], InterfacePath(scope, InterfaceNameText(ifs[0]))), InterfacesDecls(ifs[1..], scope), q);
      WellGroupedConcat(g, InterfaceGroups(ifs[1..], scope, q, prims));
    }
  }

  /** What a module's visit collects, opened up, is exactly the matching
      declarations in depth-first order, and no nested list is empty. */
  lemma {:induction false} ModuleCollectFlat(m: Module, path: string, q: string, prims: set<string>)
    requires q !in prims
    ensures Flatten(ModuleCollect(m, path, q, prims)) == Select(ModuleDecls(m, path), q)
    ensures WellGrouped(ModuleCollect(m, path, q, prims))
    decreases m, 1
  {
    var a := SubmodulesCollect(m.modules, path, q, prims);
    var b := InterfaceGroups(m.interfaces, path, q, prims);
    SubmodulesCollectFlat(m.modules, path, q, prims);
    InterfaceGroupsFlat(m.interfaces, path, q, prims);
    FlattenConcat(a, b);
    WellGroupedConcat(a, b);
    SelectConcat(SubmodulesDecls(m.modules, path), InterfacesDecls(m.interfaces, path), q);
  }

  lemma {:induction false} SubmodulesCollectFlat(ms: seq<Module>, scope: string, q: string, prims: set<string>)
    requires q !in prims
    ensures Flatten(SubmodulesCollect(ms, scope, q, prims)) == Select(SubmodulesDecls(ms, scope), q)
    ensures WellGrouped(SubmodulesCollect(ms, scope, q, prims))
    decreases ms, 0
  {
    if ms != [] {
      var path := ChildPath(scope, ms[0].name);
      var a := ModuleCollect(ms[0], path, q, prims);
      var b := SubmodulesCollect(ms[1..], scope, q, prims);
      ModuleCollectFlat(ms[0], path, q, prims);
      SubmodulesCollectFlat(ms[1..], scope, q, prims);
      FlattenConcat(a, b);
      WellGroupedConcat(a, b);
      SelectConcat(ModuleDecls(ms[0], path), SubmodulesDecls(ms[1..], scope), q);
    }
  }

  /** `find_types` as the recursive visit it is: `hits` is the shared list;
      submodules are visited first, then the module's interfaces. */
  method CollectTypes(m: Module, path: string, q: string, prims: set<string>, hits: seq<Hit>) returns (out: seq<Hit>)
    ensures out == hits + ModuleCollect(m, path, q, prims)
    decreases m
  {
    var ms := m.modules;
    out := hits;
    for k := 0 to |ms|
      invariant out == hits + SubmodulesCollect(ms[..k], path, q, prims)
    {
      out := CollectTypes(ms[k], ChildPath(path, ms[k].name), q, prims, out);
      CollectStep(ms, k, path, q, prims, hits);
    }
    assert ms[..|ms|] == ms;
    out := AppendInterfaceGroups(m.interfaces, path, q, prims, out);
    CollectParts(m, path, q, prims, hits);
  }

  lemma CollectStep(ms: seq<Module>, k: nat, path: string, q: string, prims: set<string>, hits: seq<Hit>)
    requires k < |ms|
    ensures hits + SubmodulesCollect(ms[..k], path, q, prims) + ModuleCollect(ms[k], ChildPath(path, ms[k].name), q, prims)
         == hits + SubmodulesCollect(ms[..k + 1], path, q, prims)
  {
    SubmodulesSnoc(ms, k, path, q, prims);
    Assoc(hits, SubmodulesCollect(ms[..k], path, q, prims), ModuleCollect(ms[k], ChildPath(path, ms[k].name), q, prims));
  }

  lemma Assoc(a: seq<Hit>, b: seq<Hit>, c: seq<Hit>)
    ensures a + b + c == a + (b + c)
  {
  }

  lemma CollectParts(m: Module, path: string, q: string, prims: set<string>, hits: seq<Hit>)
    ensures hits + SubmodulesCollect(m.modules, path, q, prims) + InterfaceGroups(m.interfaces, path, q, prims)
         == hits + ModuleCollect(m, path, q, prims)
  {
    var a := SubmodulesCollect(m.modules, path, q, prims);
    var b := InterfaceGroups(m.interfaces, path, q, prims);
    assert ModuleCollect(m, path, q, prims) == a + b;
    Assoc(hits, a, b);
  }

  /** `for_each_interface(parse_function)`. */
  method AppendInterfaceGroups(ifs: seq<Interface>, scope: string, q: string, prims: set<string>, hits: seq<Hit>) returns (out: seq<Hit>)
    ensures out == hits + InterfaceGroups(ifs, scope, q, prims)
  {
    out := hits;
    for k := 0 to |ifs|
      invariant out == hits + InterfaceGroups(ifs[..k], scope, q, prims)
    {
      var r := InterfaceFindTypes(ifs[k], InterfacePath(scope, InterfaceNameText(ifs[k])), q, prims);
      InterfaceGroupStep(ifs, k, scope, q, prims, hits, r);
      if r != [] {
        out := out + [Group(r)];
      }
    }
    assert ifs[..|ifs|] == ifs;
  }

  /** One interface's turn: its result is appended as one group, or nothing
      when it is empty. */
  lemma InterfaceGroupStep(ifs: seq<Interface>, k: nat, scope: string, q: string, prims: set<string>,
                           hits: seq<Hit>, r: seq<Hit>)
    requires k < |ifs| && r == InterfaceFind(ifs[k], InterfacePath(scope, InterfaceNameText(ifs[k])), q, prims)
    ensures r == [] ==> hits + InterfaceGroups(ifs[..k], scope, q, prims) == hits + InterfaceGroups(ifs[..k + 1], scope, q, prims)
    ensures r != [] ==> hits + InterfaceGroups(ifs[..k], scope, q, prims) + [Group(r)]
                        == hits + InterfaceGroups(ifs[..k + 1], scope, q, prims)
  {
    var a := InterfaceGroups(ifs[..k], scope, q, prims);
    var g := InterfaceGroup(ifs[k], scope, q, prims);
    Assoc(hits, a, g);
    InterfaceGroupsSnoc(ifs, k, scope, q, prims);
    assert g == (if r == [] then [] else [Group(r)]);
    assert a + [] == a;
  }

  method ModuleFindTypes(m: Module, path: string, q: string, prims: set<string>) returns (hits: seq<Hit>)
    ensures hits == ModuleFind(m, path, q, prims)
  {
    if q in prims {
      return [Leaf(TypeRef(q))];
    }
    hits := CollectTypes(m, path, q, prims, []);
  }

  lemma SubmodulesSnoc(ms: seq<Module>, k: nat, scope: string, q: string, prims: set<string>)
    requires k < |ms|
    ensures SubmodulesCollect(ms[..k + 1], scope, q, prims)
         == SubmodulesCollect(ms[..k], scope, q, prims) + ModuleCollect(ms[k], ChildPath(scope, ms[k].name), q, prims)
  {
    assert ms[..k + 1] == ms[..k] + [ms[k]];
    SubmodulesConcat(ms[..k], [ms[k]], scope, q, prims);
    assert [ms[k]][1..] == [];
  }

  lemma {:induction false} SubmodulesConcat(a: seq<Module>, b: seq<Module>, scope: string, q: string, prims: set<string>)
    ensures SubmodulesCollect(a + b, scope, q, prims) == SubmodulesCollect(a, scope, q, prims) + SubmodulesCollect(b, scope, q, prims)
    decreases |a|
  {
    if a == [] {
      assert a + b == b;
    } else {
      assert (a + b)[1..] == a[1..] + b;
      assert (a + b)[0] == a[0];
      SubmodulesConcat(a[1..], b, scope, q, prims);
    }
  }

  lemma InterfaceGroupsSnoc(ifs: seq<Interface>, k: nat, scope: string, q: string, prims: set<string>)
    requires k < |ifs|
    ensures InterfaceGroups(ifs[..k + 1], scope, q, prims)
         == InterfaceGroups(ifs[..k], scope, q, prims) + InterfaceGroup(ifs[k], scope, q, prims)
  {
    assert ifs[..k + 1] == ifs[..k] + [ifs[k]];
    InterfaceGroupsConcat(ifs[..k], [ifs[k]], scope, q, prims);
    assert [ifs[k]][1..] == [];
  }

  lemma {:induction false} InterfaceGroupsConcat(a: seq<Interface>, b: seq<Interface>, scope: string, q: string, prims: set<string>)
    ensures InterfaceGroups(a + b, scope, q, prims) == InterfaceGroups(a, scope, q, prims) + InterfaceGroups(b, scope, q, prims)
    decreases |a|
  {
    if a == [] {
      assert a + b == b;
    } else {
      assert (a + b)[1..] == a[1..] + b;
      InterfaceGroupsConcat(a[1..], b, scope, q, prims);
    }
  }
}
