/** Name resolution against the root module (IDLNode.refine_typename and
    the IDLMember `type` getter): a type expression is looked up with the
    root's `find_types`, and the first node found supplies the bare name. */
module Refine {
  import opened Wrappers
  import opened PyStr
  import opened Node
  import opened Structs
  import opened Sections
  import opened Interfaces
  import opened Modules

  /** `level_path`: descend into element 0 of nested lists down to a node.
      Every list `find_types` nests is non-empty, so the descent ends. */
  function FirstNode(h: Hit): Found
    requires WellGroupedOne(h)
    decreases h
  {
    match h
    case Leaf(f) => f
    case Group(gs) =>
      assert gs != [] && WellGrouped(gs);
      assert WellGroupedOne(gs[0]);
      FirstNode(gs[0])
  }

  /** The node `level_path` reaches is the first node of the flattened result. */
  lemma {:induction false} FirstNodeFlat(h: Hit)
    requires WellGroupedOne(h)
    ensures FlattenOne(h) != [] && FirstNode(h) == FlattenOne(h)[0]
    decreases h
  {
    match h
    case Leaf(f) =>
    case Group(gs) =>
      FirstNodeFlat(gs[0]);
      assert Flatten(gs) == FlattenOne(gs[0]) + Flatten(gs[1..]);
  }

  /** The `full_path` of a found node. A type node for a primitive takes its
      path from `typePath`, since the type classes are not part of this model. */
  function NodePath(f: Found, typePath: string -> string): string
  {
    match f
    case TypeRef(t) => typePath(t)
    case Decl(_, _, path) => path
  }

  /** The bare name as written: every `::public`, `::protected` and
      `::private` substring deleted, then the text after the last separator.
      The deletion also eats the start of a last segment that begins with a
      visibility word. */
  function ShortenAsWritten(path: string): (r: string)
    ensures forall j :: !OccursAt(r, "::", j)
  {
    var fp := RemoveAll(RemoveAll(RemoveAll(path, "::public"), "::protected"), "::private");
    AfterLastAbsent(fp, "::");
    AfterLast(fp, "::")
  }

  /** A declaration whose name starts with `public`, in the public section
      of an interface `i` at the root (path `::i::public::public...`): as
      written the deletion also eats the `public` of the name, and the
      interface name is glued to the rest; the last segment is the name. */
  lemma ShortenEatsName(i: string, x: string, path: string)
    requires i != [] && ':' !in i && i[0] != 'p' && ':' !in x
    requires path == "::" + i + "::public" + "::public" + x
    ensures ShortenAsWritten(path) == i + x
    ensures BareName(path) == "public" + x
  {
    EatenAsWritten(i, x, path);
    LastSegmentKept(i, x, path);
  }

  lemma EatenAsWritten(i: string, x: string, path: string)
    requires i != [] && ':' !in i && i[0] != 'p' && ':' !in x
    requires path == "::" + i + "::public" + "::public" + x
    ensures ShortenAsWritten(path) == i + x
  {
    assert "::" + i + x == "::" + (i + x);
    assert "" + Sep + (i + x) == "::" + (i + x);
    LevelTwiceDeleted(i, x, "::public");
    OthersKept(i + x);
    BareNameOfPath("", i + x);
  }

  lemma LastSegmentKept(i: string, x: string, path: string)
    requires ':' !in x
    requires path == "::" + i + "::public" + "::public" + x
    ensures BareName(path) == "public" + x
  {
    assert path == "::" + i + "::public" + Sep + ("public" + x);
    BareNameOfPath("::" + i + "::public", "public" + x);
  }

  /** Both occurrences of a level `pat` go, the second from the front of
      the name. */
  lemma LevelTwiceDeleted(i: string, x: string, pat: string)
    requires |pat| >= 3 && pat[0] == ':' && pat[1] == ':'
    requires i != [] && ':' !in i && i[0] != pat[2] && ':' !in x
    ensures RemoveAll("::" + i + pat + pat + x, pat) == "::" + i + x
  {
    var rest := pat + (pat + x);
    assert "::" + i + pat + pat + x == "::" + i + rest;
    SegmentKept(i, rest, pat);
    LevelsDropped(pat, x);
  }

  /** Two levels at the front go, and the rest, which cannot start one,
      stays. */
  lemma LevelsDropped(pat: string, x: string)
    requires pat != [] && pat[0] !in x
    ensures RemoveAll(pat + (pat + x), pat) == x
  {
    RemoveAllDrops(pat, pat + x);
    RemoveAllDrops(pat, x);
    RemoveAllSkips(x, [], pat);
    assert x + [] == x;
  }

  /** `::protected` and `::private` do not occur in `::y`. */
  lemma OthersKept(y: string)
    requires y != [] && ':' !in y && y[0] != 'p'
    ensures RemoveAll(RemoveAll("::" + y, "::protected"), "::private") == "::" + y
  {
    assert "::" + y + [] == "::" + y;
    SegmentKept(y, [], "::protected");
    SegmentKept(y, [], "::private");
  }

  /** The deletion passes over a separator and a segment `i` that cannot
      start a visibility level. */
  lemma SegmentKept(i: string, rest: string, pat: string)
    requires |pat| >= 3 && pat[0] == ':' && pat[1] == ':'
    requires i != [] && ':' !in i && i[0] != pat[2]
    ensures RemoveAll("::" + i + rest, pat) == "::" + i + RemoveAll(rest, pat)
  {
    var s := "::" + i + rest;
    assert s[2] == i[0];
    DiffersAt(s, pat, 2);
    var s1 := s[1..];
    assert s1[1] == i[0];
    DiffersAt(s1, pat, 1);
    assert s1[1..] == i + rest;
    RemoveAllSkips(i, rest, pat);
    assert RemoveAll(s, pat) == [':'] + RemoveAll(s1, pat);
    assert RemoveAll(s1, pat) == [':'] + RemoveAll(i + rest, pat);
  }

  /** Where the name does not start with the level's word, deleting that
      level passes over the last separator and the name: the deletion acts
      on the scope alone. */
  lemma LevelKept(a: string, name: string, w: string)
    requires w != [] && ':' !in w && ':' !in name && !StartsWith(name, w)
    ensures RemoveAll(a + (Sep + name), Sep + w) == RemoveAll(a, Sep + w) + (Sep + name)
  {
    var pat := Sep + w;
    var b := Sep + name;
    forall k | 0 <= k < |a| < k + |pat| ensures !OccursAt(a + b, pat, k) {
      var d := |a| - k;
      if d >= 2 {
        assert (a + b)[k + d] == ':' && pat[d] == w[d - 2];
        NotOccursAt(a + b, pat, k, d);
      } else {
        assert (a + b)[k + 2] == ':' && pat[2] == w[0];
        NotOccursAt(a + b, pat, k, 2);
      }
    }
    RemoveAllSplits(a, b, pat);
    SepNameKept(name, w);
  }

  /** `::name` holds no `::w` when the name does not start with `w`. */
  lemma SepNameKept(name: string, w: string)
    requires w != [] && ':' !in w && ':' !in name && !StartsWith(name, w)
    ensures RemoveAll(Sep + name, Sep + w) == Sep + name
  {
    var b := Sep + name;
    SepPrefix(name, w);
    ColonNameKept(name, Sep + w);
    assert b[1..] == [':'] + name;
    assert [b[0]] + ([':'] + name) == b;
  }

  /** `::name` starts with `::w` exactly when `name` starts with `w`. */
  lemma SepPrefix(name: string, w: string)
    ensures StartsWith(Sep + name, Sep + w) == StartsWith(name, w)
  {
    if |w| <= |name| {
      assert (Sep + name)[0..|Sep + w|] == Sep + name[0..|w|];
      if Sep + name[0..|w|] == Sep + w {
        assert name[0..|w|] == (Sep + name[0..|w|])[2..];
      }
    }
  }

  /** `:name` holds no level when the name holds no `:`. */
  lemma ColonNameKept(name: string, pat: string)
    requires |pat| >= 2 && pat[0] == ':' && pat[1] == ':' && ':' !in name
    ensures RemoveAll([':'] + name, pat) == [':'] + name
  {
    var c := [':'] + name;
    if name != [] {
      DiffersAt(c, pat, 1);
    }
    assert c[1..] == name;
    RemoveAllSkips(name, [], pat);
    assert name + [] == name;
  }

  /** Deleting the three visibility substrings from `scope::name` touches
      only the scope when the name does not start with a visibility word. */
  lemma DeletionsKeepName(scope: string, name: string)
    requires ':' !in name
    requires !StartsWith(name, "public") && !StartsWith(name, "protected") && !StartsWith(name, "private")
    ensures RemoveAll(RemoveAll(RemoveAll(scope + (Sep + name), "::public"), "::protected"), "::private")
            == RemoveAll(RemoveAll(RemoveAll(scope, "::public"), "::protected"), "::private") + (Sep + name)
  {
    assert Sep + "public" == "::public" && Sep + "protected" == "::protected" && Sep + "private" == "::private";
    LevelKept(scope, name, "public");
    var x1 := RemoveAll(scope, "::public");
    LevelKept(x1, name, "protected");
    var x2 := RemoveAll(x1, "::protected");
    LevelKept(x2, name, "private");
  }

  /** As written and corrected agree on `scope::name` whenever the name
      does not start with a visibility word: the deletions only touch the
      scope, and both take the text after the last separator. */
  lemma ShortenAgrees(scope: string, name: string)
    requires ':' !in name
    requires !StartsWith(name, "public") && !StartsWith(name, "protected") && !StartsWith(name, "private")
    ensures ShortenAsWritten(scope + Sep + name) == name
    ensures BareName(scope + Sep + name) == name
  {
    assert scope + Sep + name == scope + (Sep + name);
    DeletionsKeepName(scope, name);
    var x3 := RemoveAll(RemoveAll(RemoveAll(scope, "::public"), "::protected"), "::private");
    assert x3 + (Sep + name) == x3 + Sep + name;
    BareNameOfPath(x3, name);
    BareNameOfPath(scope, name);
  }

  /** For a declaration whose name does not start with a visibility word,
      the as-written bare name is the declaration's own name, as corrected. */
  lemma DeclShortenAgrees(k: Kind, scope: string, name: string)
    requires scope == [] || !IsSpace(scope[0])
    requires ':' !in name && (name == [] || !IsSpace(name[|name| - 1]))
    requires !StartsWith(name, "public") && !StartsWith(name, "protected") && !StartsWith(name, "private")
    ensures ShortenAsWritten(DeclPath(k, scope, name)) == name
    ensures BareName(DeclPath(k, scope, name)) == name
  {
    if k == StructKind {
      StructPathJoins(scope, name);
    }
    ShortenAgrees(scope, name);
  }

  /** The concrete case: a struct `publicKey` in interface `I` resolves to
      `IKey` as written and to `publicKey` by its last segment. */
  lemma ShortenPublicKey(path: string)
    requires path == "::I::public::publicKey"
    ensures ShortenAsWritten(path) == "IKey"
    ensures BareName(path) == "publicKey"
  {
    PublicKeyPathParts(path);
    ShortenEatsName("I", "Key", path);
  }

  /** The path of the concrete case, in the parts the general case names. */
  lemma PublicKeyPathParts(path: string)
    requires path == "::I::public::publicKey"
    ensures path == "::" + "I" + "::public" + "::public" + "Key"
  {
  }

  /** The bare name: the text after the last separator of the path. The
      visibility levels are segments of their own, so they never reach it. */
  function BareName(path: string): (r: string)
    ensures forall j :: !OccursAt(r, Sep, j)
  {
    AfterLastAbsent(path, Sep);
    AfterLast(path, Sep)
  }

  /** The bare name of `scope::name` is `name`, for a name without `:`. */
  lemma BareNameOfPath(scope: string, name: string)
    requires ':' !in name
    ensures BareName(scope + Sep + name) == name
  {
    var s := scope + Sep + name;
    assert OccursAt(s, Sep, |scope|);
    forall j | |scope| < j <= |s| ensures !OccursAt(s, Sep, j) {
      if j == |scope| + 1 && name != [] {
        assert s[j + 1] == name[0];
      } else if |scope| + 2 <= j < |s| {
        assert s[j] == name[j - |scope| - 2];
      }
    }
    RFindIs(s, Sep, |scope|);
    assert s[|scope| + 2..] == name;
  }

  /** The bare name of a declaration found in a section is its own name. */
  lemma BareNameOfDecl(k: Kind, scope: string, name: string)
    requires scope == [] || !IsSpace(scope[0])
    requires ':' !in name && (name == [] || !IsSpace(name[|name| - 1]))
    ensures BareName(DeclPath(k, scope, name)) == name
  {
    if k == StructKind {
      StructPathJoins(scope, name);
    }
    BareNameOfPath(scope, name);
  }

  /** What the root's `find_types` returns is always well nested. */
  lemma RootFindGrouped(root: Module, q: string, prims: set<string>)
    ensures WellGrouped(ModuleFind(root, "", q, prims))
  {
    if q !in prims {
      ModuleCollectFlat(root, "", q, prims);
    }
  }

  /** The non-sequence branch: the input unchanged when the root finds
      nothing, else the shortened path of the first node found. */
  function Resolve(root: Module, q: string, prims: set<string>, typePath: string -> string): string
  {
    var hits := ModuleFind(root, "", q, prims);
    if hits == [] then q
    else
      RootFindGrouped(root, q, prims);
      BareName(NodePath(FirstNode(Group(hits)), typePath))
  }

  /** The non-sequence branch as written: the first node's path shortened by
      deleting the visibility substrings. */
  function ResolveAsWritten(root: Module, q: string, prims: set<string>, typePath: string -> string): string
  {
    var hits := ModuleFind(root, "", q, prims);
    if hits == [] then q
    else
      RootFindGrouped(root, q, prims);
      ShortenAsWritten(NodePath(FirstNode(Group(hits)), typePath))
  }

  /** The text between the first `<` and the first `>`, as written: with no
      `>` the end index is -1 and the last character is cut off. */
  function InnerAsWritten(q: string): (r: string)
    requires q != []
    ensures |r| < |q|
  {
    var b := Find(q, ">");
    assert b >= 0 ==> OccursAt(q, ">", b);
    Slice(q, Find(q, "<") + 1, b)
  }

  /** How a rewritten sequence type is written out. */
  function SequenceOut(inner: string): string
  {
    "sequence < " + inner + " >"
  }

  /** `refine_typename` as written, with `lookup` for the non-sequence
      branch (`Resolve` against the root, in the program). */
  function RefineAsWritten(q: string, lookup: string -> string): string
    decreases |q|
  {
    if Contains(q, "sequence") then
      SequenceOut(RefineAsWritten(InnerAsWritten(q), lookup))
    else lookup(q)
  }

  /** The text between the first `<` and the last `>`. */
  function InnerCorrected(q: string): (r: string)
    requires q != []
    ensures |r| < |q|
  {
    var b := RFind(q, ">");
    assert b >= 0 ==> OccursAt(q, ">", b);
    Slice(q, Find(q, "<") + 1, b)
  }

  /** `refine_typename` with the inner text ending at the last `>`. */
  function RefineCorrected(q: string, lookup: string -> string): string
    decreases |q|
  {
    if Contains(q, "sequence") then
      SequenceOut(RefineCorrected(InnerCorrected(q), lookup))
    else lookup(q)
  }

  /** The rewrite of a type against the root module. */
  function RefineTypename(root: Module, q: string, prims: set<string>, typePath: string -> string): string
  {
    RefineCorrected(q, s => Resolve(root, s, prims, typePath))
  }

  /** `sequence<x>` as it may be written in a declaration. */
  function SequenceIn(x: string): string
  {
    "sequence<" + x + ">"
  }

  /** The first `<` of `sequence<y>` is the one after `sequence`. */
  lemma FirstOpen(y: string)
    ensures Contains(SequenceIn(y), "sequence")
    ensures Find(SequenceIn(y), "<") == 8
  {
    ContainsPrefix("sequence", "<" + y + ">");
    assert "sequence" + ("<" + y + ">") == SequenceIn(y);
    FindFirstChar("sequence", '<', y + ">");
    assert "sequence" + ['<'] + (y + ">") == SequenceIn(y);
  }

  /** Peeling one level of `sequence<...>` gives back what was wrapped. */
  lemma PeelCorrected(x: string)
    ensures Contains(SequenceIn(x), "sequence")
    ensures InnerCorrected(SequenceIn(x)) == x
  {
    var s := SequenceIn(x);
    FirstOpen(x);
    RFindLastChar(s, '>');
    assert s[9..|s| - 1] == x;
  }

  /** Whatever the wrapped text, the corrected rewrite of `sequence<x>` is
      the rewrite of `x` wrapped back up, so nesting of any depth survives. */
  lemma RefineCorrectedPeels(x: string, lookup: string -> string)
    ensures RefineCorrected(SequenceIn(x), lookup) == SequenceOut(RefineCorrected(x, lookup))
  {
    PeelCorrected(x);
  }

  /** On a one-level `sequence<x>` the first `>` is the last one, so the
      slice as written and the corrected one both give back `x`. */
  lemma InnerAgrees(x: string)
    requires '>' !in x
    ensures Contains(SequenceIn(x), "sequence")
    ensures InnerAsWritten(SequenceIn(x)) == x
    ensures InnerCorrected(SequenceIn(x)) == x
  {
    var q := SequenceIn(x);
    var pre := "sequence<" + x;
    FirstOpen(x);
    assert '>' !in pre by {
      assert forall k :: 9 <= k < |pre| ==> pre[k] == x[k - 9];
    }
    FindFirstChar(pre, '>', []);
    assert pre + ['>'] + [] == q;
    assert q[9..9 + |x|] == x;
    PeelCorrected(x);
  }

  /** The correction changes nothing for a plain type or a one-level
      sequence: as written and corrected rewrite `sequence<x>` to the
      same text. */
  lemma RefineAgrees(x: string, lookup: string -> string)
    requires '>' !in x && !Contains(x, "sequence")
    ensures RefineAsWritten(x, lookup) == RefineCorrected(x, lookup) == lookup(x)
    ensures RefineAsWritten(SequenceIn(x), lookup) == RefineCorrected(SequenceIn(x), lookup)
            == SequenceOut(lookup(x))
  {
    InnerAgrees(x);
  }

  /** Resolution follows the declarations in depth-first order: with no
      declaration named `q` (by name or full path) the input comes back
      unchanged; otherwise the bare name comes from the first one that is. */
  lemma ResolveFirstDecl(root: Module, q: string, prims: set<string>, typePath: string -> string)
    requires q !in prims
    ensures var ds := ModuleDecls(root, "");
            (forall i :: 0 <= i < |ds| ==> !Matches(ds[i], q)) ==>
              Resolve(root, q, prims, typePath) == q && ResolveAsWritten(root, q, prims, typePath) == q
    ensures var ds := ModuleDecls(root, "");
            (exists i :: 0 <= i < |ds| && Matches(ds[i], q)) ==>
              exists i :: 0 <= i < |ds| && Matches(ds[i], q) && (forall j :: 0 <= j < i ==> !Matches(ds[j], q))
                          && Resolve(root, q, prims, typePath) == BareName(ds[i].path)
                          && ResolveAsWritten(root, q, prims, typePath) == ShortenAsWritten(ds[i].path)
  {
    var ds := ModuleDecls(root, "");
    var hits := ModuleFind(root, "", q, prims);
    ModuleCollectFlat(root, "", q, prims);
    SelectMembers(ds, q);
    if hits == [] {
      assert Select(ds, q) == [];
      forall i | 0 <= i < |ds| ensures !Matches(ds[i], q) {
        assert ds[i] in ds;
      }
    } else {
      FirstNodeFlat(Group(hits));
      assert FlattenOne(Group(hits)) == Flatten(hits);
      SelectFirst(ds, q);
    }
  }

  /** The first level of `sequence<sequence<x>>` as written: the first `>`
      closes the inner level, so the outer level peels to `sequence<x`. */
  lemma PeelOuterAsWritten(x: string)
    requires '>' !in x
    ensures Contains(SequenceIn(SequenceIn(x)), "sequence")
    ensures InnerAsWritten(SequenceIn(SequenceIn(x))) == "sequence<" + x
  {
    var q := SequenceIn(SequenceIn(x));
    FirstOpen(SequenceIn(x));
    FirstCloseAfter(x);
    OuterSlice(x);
    assert |q| == 20 + |x|;
  }

  /** The text between the outer `<` and the first `>` of `sequence<sequence<x>>`. */
  lemma OuterSlice(x: string)
    ensures SequenceIn(SequenceIn(x))[9..18 + |x|] == "sequence<" + x
  {
    assert SequenceIn(SequenceIn(x)) == "sequence<" + ("sequence<" + x) + ">>";
  }

  /** In `sequence<sequence<x>>` with no `>` in `x`, the first `>` follows `x`. */
  lemma FirstCloseAfter(x: string)
    requires '>' !in x
    ensures Find(SequenceIn(SequenceIn(x)), ">") == 18 + |x|
  {
    var pre := "sequence<sequence<" + x;
    FindFirstChar(pre, '>', ">");
    assert pre + ['>'] + ">" == SequenceIn(SequenceIn(x));
  }

  /** The unclosed `sequence<x` as written: no `>` is found, the end index
      is -1, and the last character of `x` is lost. */
  lemma PeelInnerAsWritten(x: string)
    requires x != [] && '>' !in x
    ensures Contains("sequence<" + x, "sequence")
    ensures InnerAsWritten("sequence<" + x) == x[..|x| - 1]
  {
    var mid := "sequence<" + x;
    ContainsPrefix("sequence", "<" + x);
    assert "sequence" + ("<" + x) == mid;
    FindFirstChar("sequence", '<', x);
    assert "sequence" + ['<'] + x == mid;
    FindAbsentChar(mid, '>');
    assert mid[9..|mid| - 1] == x[..|x| - 1];
  }

  /** Every two-level `sequence<sequence<x>>` is mangled as written: the
      lookup sees `x` without its last character. The corrected rewrite
      looks up `x` itself. With `x = long` the lookup sees `lon`. */
  lemma RefineTruncatesNested(x: string, lookup: string -> string)
    requires x != [] && '>' !in x && !Contains(x, "sequence")
    ensures RefineAsWritten(SequenceIn(SequenceIn(x)), lookup) == SequenceOut(SequenceOut(lookup(x[..|x| - 1])))
    ensures RefineCorrected(SequenceIn(SequenceIn(x)), lookup) == SequenceOut(SequenceOut(lookup(x)))
  {
    PeelOuterAsWritten(x);
    PeelInnerAsWritten(x);
    ContainsWithin(x, |x| - 1, "sequence");
    assert RefineAsWritten("sequence<" + x, lookup) == SequenceOut(lookup(x[..|x| - 1]));
    RefineCorrectedPeels(SequenceIn(x), lookup);
    RefineCorrectedPeels(x, lookup);
  }

  /** The concrete case: `sequence<sequence<long>>`. */
  lemma RefineTruncatesLong(lookup: string -> string)
    ensures RefineAsWritten("sequence<sequence<long>>", lookup) == SequenceOut(SequenceOut(lookup("lon")))
    ensures RefineCorrected("sequence<sequence<long>>", lookup) == SequenceOut(SequenceOut(lookup("long")))
  {
    assert SequenceIn(SequenceIn("long")) == "sequence<sequence<long>>";
    assert !Contains("long", "sequence");
    RefineTruncatesNested("long", lookup);
    assert "long"[..3] == "lon";
  }

  /** A root module holding one interface `I` whose public section declares
      a struct `publicKey`. */
  function PublicKeyRoot(): Module
  {
    Module(GlobalName, [], [Interface(Some("I"), [Section(Public, [], [Struct("publicKey", [])], [], [], [], [])], [], [])])
  }

  /** The root visits exactly one declaration, the struct at
      `::I::public::publicKey`. */
  lemma PublicKeyRootDecls()
    ensures ModuleDecls(PublicKeyRoot(), "") == [Decl(StructKind, "publicKey", "::I::public::publicKey")]
  {
    var i := Interface(Some("I"), [Section(Public, [], [Struct("publicKey", [])], [], [], [], [])], [], []);
    var sec := i.publics[0];
    assert InterfacePath("", InterfaceNameText(i)) == "::I";
    assert SectionPath("::I", Public) == "::I::public";
    StructPathJoins("::I::public", "publicKey");
    assert StructPath("::I::public", "publicKey") == "::I::public::publicKey";
    var d := Decl(StructKind, "publicKey", "::I::public::publicKey");
    assert Candidates(sec, "::I::public") == [d];
    assert SectionsDecls(i.publics, "::I") == [d];
    assert InterfaceDecls(i, "::I") == [d];
    assert InterfacesDecls([i], "") == [d];
  }

  /** Resolving `publicKey` against that root: as written the name comes
      out as `IKey`; with the last segment taken directly it is the name. */
  lemma ResolvePublicKey(prims: set<string>, typePath: string -> string)
    requires "publicKey" !in prims
    ensures ResolveAsWritten(PublicKeyRoot(), "publicKey", prims, typePath) == "IKey"
    ensures Resolve(PublicKeyRoot(), "publicKey", prims, typePath) == "publicKey"
  {
    var q := "publicKey";
    PublicKeyRootDecls();
    var ds := ModuleDecls(PublicKeyRoot(), "");
    assert Strip(q) == q by {
      assert q[0] == 'p' && q[|q| - 1] == 'y';
    }
    assert Matches(ds[0], q);
    ResolveFirstDecl(PublicKeyRoot(), q, prims, typePath);
    ShortenPublicKey(ds[0].path);
  }

  /** Against an empty root, a name that is not primitive resolves to itself,
      so the mangled name survives into the output. */
  lemma ResolveEmptyRoot(q: string, prims: set<string>, typePath: string -> string)
    requires q !in prims
    ensures Resolve(Module(GlobalName, [], []), q, prims, typePath) == q
  {
    assert ModuleCollect(Module(GlobalName, [], []), "", q, prims) == [];
  }

  /** The IDLMember `type` getter: the stored type, unchanged, and whether a
      diagnostic is printed. Only a basic (named) type is looked up; `basic`
      says whether the type object's class is the basic type class. */
  datatype TypeRead = TypeRead(typ: MemberType, warns: bool)

  function MemberTypeRead(mem: Member, root: Module, prims: set<string>, basic: bool): (r: TypeRead)
    ensures r.typ == mem.typ
  {
    if basic && mem.typ.Named? then
      TypeRead(mem.typ, ModuleFind(root, "", mem.typ.text, prims) == [])
    else TypeRead(mem.typ, false)
  }

  /** The getter warns exactly for a basic named type that is not primitive
      and that no declaration under the root is named (by name or full path). */
  lemma MemberTypeWarns(mem: Member, root: Module, prims: set<string>, basic: bool)
    ensures MemberTypeRead(mem, root, prims, basic).warns <==>
              basic && mem.typ.Named? && mem.typ.text !in prims
              && forall d :: d in ModuleDecls(root, "") ==> !Matches(d, mem.typ.text)
  {
    if basic && mem.typ.Named? && mem.typ.text !in prims {
      var q := mem.typ.text;
      var ds := ModuleDecls(root, "");
      ModuleCollectFlat(root, "", q, prims);
      SelectMembers(ds, q);
      var hits := ModuleCollect(root, "", q, prims);
      if hits != [] {
        FirstNodeFlat(Group(hits));
        assert FlattenOne(Group(hits)) == Flatten(hits);
        assert Select(ds, q)[0] in Select(ds, q);
      }
    }
  }
}
