/** `IDLInterface`: an interface holds one list of sections per visibility,
    filled from `public:`, `protected:` and `private:` markers up to `};`. */
module Interfaces {
  import opened Wrappers
  import opened Node
  import opened Tokens
  import opened Sections

  /** The name is the token popped after `interface`, None at the end of the buffer. */
  datatype Interface = Interface(name: Option<string>, publics: seq<Section>,
                                 protecteds: seq<Section>, privates: seq<Section>)

  function NewInterface(name: Option<string>): (i: Interface)
    ensures i.name == name && i.publics == [] && i.protecteds == [] && i.privates == []
  {
    Interface(name, [], [], [])
  }

  /** An interface's `full_path`: its scope's path, the separator, its name. */
  function InterfacePath(scope: string, name: string): string
  {
    scope + Sep + name
  }

  /** The visibility a section marker selects. */
  function MarkerOf(tok: string): (r: Option<Visibility>)
    ensures r.Some? <==> tok in {"public:", "protected:", "private:"}
    ensures r.Some? ==> tok == VisibilityName(r.value) + ":"
  {
    if tok == "public:" then Some(Public)
    else if tok == "protected:" then Some(Protected)
    else if tok == "private:" then Some(Private)
    else None
  }

  function SectionsOf(i: Interface, v: Visibility): seq<Section>
  {
    match v
    case Public => i.publics
    case Protected => i.protecteds
    case Private => i.privates
  }

  function WithSections(i: Interface, v: Visibility, ss: seq<Section>): (r: Interface)
    ensures SectionsOf(r, v) == ss && r.name == i.name
    ensures forall w :: w != v ==> SectionsOf(r, w) == SectionsOf(i, w)
  {
    match v
    case Public => i.(publics := ss)
    case Protected => i.(protecteds := ss)
    case Private => i.(privates := ss)
  }

  /** `public_by_name(name)` and its siblings: the index of the first section
      named `name`, or the length of the list when there is none. */
  function SectionIndex(ss: seq<Section>, name: string): (k: nat)
    ensures k <= |ss|
    ensures k < |ss| ==> VisibilityName(ss[k].vis) == name
    ensures forall j :: 0 <= j < k ==> VisibilityName(ss[j].vis) != name
    decreases |ss|
  {
    if ss == [] then 0
    else if VisibilityName(ss[0].vis) == name then 0
    else 1 + SectionIndex(ss[1..], name)
  }

  /** After a marker: the section of that name is found, or created and
      appended, and then parsed in place, so that on a failure the interface
      holds the partly filled section. */
  function ReadSection(t: seq<string>, q: nat, v: Visibility, i: Interface): (r: Parsed<Interface>)
    requires q <= |t|
    ensures q <= r.pos <= |t|
    ensures r.value.name == i.name
  {
    var ss := SectionsOf(i, v);
    var k := SectionIndex(ss, VisibilityName(v));
    var ss' := if k == |ss| then ss + [NewSection(v)] else ss;
    var s := SectionBody(t, q, ss'[k]);
    Parsed(WithSections(i, v, ss'[k := s.value]), s.pos, s.ok)
  }

  /** The `while True` loop of `parse_tokens` after the `{`: section markers,
      `}` `;` to finish; any other token is skipped. */
  function InterfaceLoop(t: seq<string>, p: nat, i: Interface): (r: Parsed<Interface>)
    requires p <= |t|
    ensures p <= r.pos <= |t|
    ensures r.value.name == i.name
    decreases |t| - p
  {
    match PeekAt(t, p)
    case None => Parsed(i, p, false)
    case Some(tok) =>
      match MarkerOf(tok)
      case Some(v) =>
        var r := ReadSection(t, p + 1, v, i);
        if !r.ok then r else InterfaceLoop(t, r.pos, r.value)
      case None =>
        if tok == "}" then Parsed(i, NextAt(t, p + 1), PeekAt(t, p + 1) == Some(";"))
        else InterfaceLoop(t, p + 1, i)
  }

  /** `parse_tokens(token_buf)`: a `{`, then the loop. */
  function InterfaceBody(t: seq<string>, p: nat, i: Interface): (r: Parsed<Interface>)
    requires p <= |t|
    ensures p <= r.pos <= |t|
    ensures r.value.name == i.name
  {
    if PeekAt(t, p) != Some("{") then Parsed(i, NextAt(t, p), false)
    else InterfaceLoop(t, p + 1, i)
  }

  /** `parse_tokens` as the loop it is. */
  method ParseInterfaceTokens(ts: TokenStream, i0: Interface) returns (i: Interface, ok: bool)
    requires ts.Valid()
    modifies ts
    ensures ts.Valid()
    ensures InterfaceBody(ts.tokens, old(ts.pos), i0) == Parsed(i, ts.pos, ok)
  {
    i := i0;
    var brace := ts.Pop();
    if brace != Some("{") {
      return i, false;
    }
    while true
      invariant ts.Valid()
      invariant InterfaceLoop(ts.tokens, ts.pos, i) == InterfaceBody(ts.tokens, old(ts.pos), i0)
      decreases |ts.tokens| - ts.pos
    {
      var tok := ts.Pop();
      if tok.None? {
        return i, false;
      }
      var v := MarkerOf(tok.value);
      if v.Some? {
        var ss := SectionsOf(i, v.value);
        var k := SectionIndex(ss, VisibilityName(v.value));
        if k == |ss| {
          ss := ss + [NewSection(v.value)];
        }
        var s, sok := ParseSectionTokens(ts, ss[k]);
        i := WithSections(i, v.value, ss[k := s]);
        if !sok {
          return i, false;
        }
      } else if tok.value == "}" {
        var semi := ts.Pop();
        return i, semi == Some(";");
      }
    }
  }

  // ---------------------------------------------------------------------
  // What an interface parse keeps.

  /** A list of sections as the parser builds it: at most one section, of
      the list's visibility, with distinct declaration names, and without
      unions unless it is public. */
  predicate SectionsShaped(ss: seq<Section>, v: Visibility)
  {
    |ss| <= 1 && forall k :: 0 <= k < |ss| ==>
      ss[k].vis == v && NamesDistinct(ss[k]) && (v != Public ==> ss[k].unions == [])
  }

  predicate Shaped(i: Interface)
  {
    forall v :: SectionsShaped(SectionsOf(i, v), v)
  }

  lemma ReadSectionKeeps(t: seq<string>, q: nat, v: Visibility, i: Interface)
    requires q <= |t| && Stripped(t) && Shaped(i)
    ensures Shaped(ReadSection(t, q, v, i).value)
  {
    var ss := SectionsOf(i, v);
    assert SectionsShaped(ss, v);
    var k := SectionIndex(ss, VisibilityName(v));
    var ss' := if k == |ss| then ss + [NewSection(v)] else ss;
    assert ss'[k].vis == v && NamesDistinct(ss'[k]) && (v != Public ==> ss'[k].unions == []);
    SectionBodyKeeps(t, q, ss'[k]);
    var r := ReadSection(t, q, v, i);
    assert SectionsShaped(SectionsOf(r.value, v), v);
    forall w ensures SectionsShaped(SectionsOf(r.value, w), w) {
      if w != v {
        assert SectionsShaped(SectionsOf(i, w), w);
      }
    }
  }

  /** The interface loop keeps one section per visibility, of that
      visibility, with distinct names and no union outside the public one. */
  lemma {:induction false} InterfaceLoopKeeps(t: seq<string>, p: nat, i: Interface)
    requires p <= |t| && Stripped(t) && Shaped(i)
    ensures Shaped(InterfaceLoop(t, p, i).value)
    decreases |t| - p
  {
    if p < |t| {
      var v := MarkerOf(t[p]);
      if v.Some? {
        var r := ReadSection(t, p + 1, v.value, i);
        ReadSectionKeeps(t, p + 1, v.value, i);
        if r.ok {
          InterfaceLoopKeeps(t, r.pos, r.value);
        }
      } else if t[p] != "}" {
        InterfaceLoopKeeps(t, p + 1, i);
      }
    }
  }

  lemma InterfaceBodyKeeps(t: seq<string>, p: nat, i: Interface)
    requires p <= |t| && Stripped(t) && Shaped(i)
    ensures Shaped(InterfaceBody(t, p, i).value)
  {
    if PeekAt(t, p) == Some("{") {
      assert InterfaceBody(t, p, i) == InterfaceLoop(t, p + 1, i);
      InterfaceLoopKeeps(t, p + 1, i);
    } else {
      assert InterfaceBody(t, p, i).value == i;
    }
  }

  /** An interface parse succeeds only by reading `}` then `;`. */
  lemma {:induction false} InterfaceLoopCloses(t: seq<string>, p: nat, i: Interface)
    requires p <= |t| && InterfaceLoop(t, p, i).ok
    ensures ClosedBy(t, InterfaceLoop(t, p, i).pos)
    decreases |t| - p
  {
    InterfaceLoopStep(t, p, i);
    var v := MarkerOf(t[p]);
    if v.Some? {
      var r := ReadSection(t, p + 1, v.value, i);
      InterfaceLoopCloses(t, r.pos, r.value);
    } else if t[p] != "}" {
      InterfaceLoopCloses(t, p + 1, i);
    }
  }

  /** One turn of the interface loop. */
  lemma InterfaceLoopStep(t: seq<string>, p: nat, i: Interface)
    requires p < |t|
    ensures MarkerOf(t[p]).Some? ==>
      var r := ReadSection(t, p + 1, MarkerOf(t[p]).value, i);
      InterfaceLoop(t, p, i) == if !r.ok then r else InterfaceLoop(t, r.pos, r.value)
    ensures MarkerOf(t[p]).None? && t[p] == "}" ==>
      InterfaceLoop(t, p, i) == Parsed(i, NextAt(t, p + 1), p + 1 < |t| && t[p + 1] == ";")
    ensures MarkerOf(t[p]).None? && t[p] != "}" ==> InterfaceLoop(t, p, i) == InterfaceLoop(t, p + 1, i)
  {
    assert PeekAt(t, p) == Some(t[p]);
  }

  // ---------------------------------------------------------------------
  // `find_types`.

  /** A section's result, as the interface appends it: one nested list,
      or nothing when it is empty. */
  function SectionGroup(sec: Section, scope: string, q: string, prims: set<string>): seq<Hit>
  {
    var r := SectionFind(sec, SectionPath(scope, sec.vis), q, prims);
    if r == [] then [] else [Group(r)]
  }

  /** The results of a list of sections, in order. */
  function SectionGroups(ss: seq<Section>, scope: string, q: string, prims: set<string>): seq<Hit>
    decreases |ss|
  {
    if ss == [] then [] else SectionGroup(ss[0], scope, q, prims) + SectionGroups(ss[1..], scope, q, prims)
  }

  /** An interface's `find_types(q)` under its path `path`: a primitive name
      yields its type node; otherwise the non-empty results of the public,
      protected and private sections, in that order, each as a nested list. */
  function InterfaceFind(i: Interface, path: string, q: string, prims: set<string>): (r: seq<Hit>)
    ensures q in prims ==> r == [Leaf(TypeRef(q))]
  {
    if q in prims then [Leaf(TypeRef(q))]
    else
      SectionGroups(i.publics, path, q, prims)
      + SectionGroups(i.protecteds, path, q, prims)
      + SectionGroups(i.privates, path, q, prims)
  }

  /** The declarations an interface visits, in order. */
  function SectionsDecls(ss: seq<Section>, scope: string): seq<Found>
    decreases |ss|
  {
    if ss == [] then [] else Candidates(ss[0], SectionPath(scope, ss[0].vis)) + SectionsDecls(ss[1..], scope)
  }

  function InterfaceDecls(i: Interface, path: string): seq<Found>
  {
    SectionsDecls(i.publics, path) + SectionsDecls(i.protecteds, path) + SectionsDecls(i.privates, path)
  }

  lemma SectionGroupFlat(sec: Section, scope: string, q: string, prims: set<string>)
    requires q !in prims
    ensures Flatten(SectionGroup(sec, scope, q, prims)) == Select(Candidates(sec, SectionPath(scope, sec.vis)), q)
    ensures WellGrouped(SectionGroup(sec, scope, q, prims))
  {
    var r := SectionFind(sec, SectionPath(scope, sec.vis), q, prims);
    SectionFindFlat(sec, SectionPath(scope, sec.vis), q, prims);
    if r != [] {
      assert [Group(r)][1..] == [];
    }
  }

  lemma {:induction false} SectionGroupsFlat(ss: seq<Section>, scope: string, q: string, prims: set<string>)
    requires q !in prims
    ensures Flatten(SectionGroups(ss, scope, q, prims)) == Select(SectionsDecls(ss, scope), q)
    ensures WellGrouped(SectionGroups(ss, scope, q, prims))
    decreases |ss|
  {
    if ss != [] {
      var g := SectionGroup(ss[0], scope, q, prims);
      SectionGroupsFlat(ss[1..], scope, q, prims);
      SectionGroupFlat(ss[0], scope, q, prims);
      FlattenConcat(g, SectionGroups(ss[1..], scope, q, prims));
      SelectConcat(Candidates(ss[0], SectionPath(scope, ss[0].vis)), SectionsDecls(ss[1..], scope), q);
      WellGroupedConcat(g, SectionGroups(ss[1..], scope, q, prims));
    }
  }

  /** An interface's result, opened up, is exactly the matching declarations
      of its sections in visiting order; no nested list is empty. */
  lemma InterfaceFindFlat(i: Interface, path: string, q: string, prims: set<string>)
    requires q !in prims
    ensures Flatten(InterfaceFind(i, path, q, prims)) == Select(InterfaceDecls(i, path), q)
    ensures WellGrouped(InterfaceFind(i, path, q, prims))
  {
    var a := SectionGroups(i.publics, path, q, prims);
    var b := SectionGroups(i.protecteds, path, q, prims);
    var c := SectionGroups(i.privates, path, q, prims);
    SectionGroupsFlat(i.publics, path, q, prims);
    SectionGroupsFlat(i.protecteds, path, q, prims);
    SectionGroupsFlat(i.privates, path, q, prims);
    FlattenConcat(a, b);
    FlattenConcat(a + b, c);
    WellGroupedConcat(a, b);
    WellGroupedConcat(a + b, c);
    SelectConcat(SectionsDecls(i.publics, path), SectionsDecls(i.protecteds, path), q);
    SelectConcat(SectionsDecls(i.publics, path) + SectionsDecls(i.protecteds, path), SectionsDecls(i.privates, path), q);
  }

  /** `find_types` as the loops it is: each section's result, when
      non-empty, is appended as one element. */
  method InterfaceFindTypes(i: Interface, path: string, q: string, prims: set<string>) returns (hits: seq<Hit>)
    ensures hits == InterfaceFind(i, path, q, prims)
  {
    if q in prims {
      return [Leaf(TypeRef(q))];
    }
    var a := AppendGroups([], i.publics, path, q, prims);
    var b := AppendGroups(a, i.protecteds, path, q, prims);
    hits := AppendGroups(b, i.privates, path, q, prims);
    assert a == SectionGroups(i.publics, path, q, prims);
  }

  method AppendGroups(hits: seq<Hit>, ss: seq<Section>, scope: string, q: string, prims: set<string>) returns (out: seq<Hit>)
    ensures out == hits + SectionGroups(ss, scope, q, prims)
  {
    out := hits;
    for k := 0 to |ss|
      invariant out == hits + SectionGroups(ss[..k], scope, q, prims)
    {
      var r := SectionFindTypes(ss[k], SectionPath(scope, ss[k].vis), q, prims);
      SectionGroupStep(ss, k, scope, q, prims, hits, r);
      if r != [] {
        out := out + [Group(r)];
      }
    }
    assert ss[..|ss|] == ss;
  }

  /** One section's turn: its result is appended as one group, or nothing
      when it is empty. */
  lemma SectionGroupStep(ss: seq<Section>, k: nat, scope: string, q: string, prims: set<string>,
                         hits: seq<Hit>, r: seq<Hit>)
    requires k < |ss| && r == SectionFind(ss[k], SectionPath(scope, ss[k].vis), q, prims)
    ensures r == [] ==> hits + SectionGroups(ss[..k], scope, q, prims) == hits + SectionGroups(ss[..k + 1], scope, q, prims)
    ensures r != [] ==> hits + SectionGroups(ss[..k], scope, q, prims) + [Group(r)]
                        == hits + SectionGroups(ss[..k + 1], scope, q, prims)
  {
    var a := SectionGroups(ss[..k], scope, q, prims);
    var g := SectionGroup(ss[k], scope, q, prims);
    assert hits + a + g == hits + (a + g);
    SectionGroupsSnoc(ss, k, scope, q, prims);
    assert g == (if r == [] then [] else [Group(r)]);
    assert a + [] == a;
  }

  /** One more section visited. */
  lemma SectionGroupsSnoc(ss: seq<Section>, k: nat, scope: string, q: string, prims: set<string>)
    requires k < |ss|
    ensures SectionGroups(ss[..k + 1], scope, q, prims)
         == SectionGroups(ss[..k], scope, q, prims) + SectionGroup(ss[k], scope, q, prims)
  {
    assert ss[..k + 1] == ss[..k] + [ss[k]];
    SectionGroupsConcat(ss[..k], [ss[k]], scope, q, prims);
    assert [ss[k]][1..] == [];
  }

  lemma {:induction false} SectionGroupsConcat(a: seq<Section>, b: seq<Section>, scope: string, q: string, prims: set<string>)
    ensures SectionGroups(a + b, scope, q, prims) == SectionGroups(a, scope, q, prims) + SectionGroups(b, scope, q, prims)
    decreases |a|
  {
    if a == [] {
      assert a + b == b;
    } else {
      assert (a + b)[1..] == a[1..] + b;
      SectionGroupsConcat(a[1..], b, scope, q, prims);
    }
  }

  // ---------------------------------------------------------------------
  // Lookups.

  /** `public_by_name(name)` and its siblings. */
  function SectionByName(i: Interface, v: Visibility, name: string): (r: Option<Section>)
    ensures r.Some? ==> VisibilityName(r.value.vis) == name && r.value in SectionsOf(i, v)
    ensures r.None? ==> forall s :: s in SectionsOf(i, v) ==> VisibilityName(s.vis) != name
  {
    var ss := SectionsOf(i, v);
    var k := SectionIndex(ss, name);
    if k < |ss| then Some(ss[k]) else None
  }
}
