/** The identity every declaration node shares (IDLNode): its class tag,
    its name, its owning scope, and what is derived from them. */
module Node {
  import opened Wrappers
  import opened PyStr

  /** The scope separator. */
  const Sep: string := "::"

  /** A node as the ancestor walk sees it: class tag, name, and the owning
      scope (None for the root). */
  datatype Scope = Scope(classname: string, name: string, parent: Option<Scope>)

  // The kind predicates compare the class tag with a literal.
  predicate IsArray(n: Scope) { n.classname == "IDLArray" }
  predicate IsVoid(n: Scope) { n.classname == "IDLVoid" }
  predicate IsStruct(n: Scope) { n.classname == "IDLStruct" }
  predicate IsUnion(n: Scope) { n.classname == "IDLUnion" }
  predicate IsTypedef(n: Scope) { n.classname == "IDLTypedef" }
  predicate IsSequence(n: Scope) { n.classname == "IDLSequence" }
  predicate IsPrimitive(n: Scope) { n.classname == "IDLPrimitive" }
  predicate IsInterface(n: Scope) { n.classname == "IDLInterface" }
  predicate IsEnum(n: Scope) { n.classname == "IDLEnum" }
  predicate IsConst(n: Scope) { n.classname == "IDLConst" }

  /** `name.find('::') > 0`: a separator occurs, and not at the very start. */
  predicate HasInnerSep(name: string)
  {
    Find(name, Sep) > 0
  }

  /** `basename`: the text after the last separator, when one occurs past position 0. */
  function Basename(name: string): string
  {
    if HasInnerSep(name) then AfterLast(name, Sep) else name
  }

  /** `pathname`: the text before the last separator, when one occurs past position 0. */
  function Pathname(name: string): string
  {
    if HasInnerSep(name) then
      RFindLast(name, Sep);
      assert OccursAt(name, Sep, Find(name, Sep));
      name[..RFind(name, Sep)]
    else ""
  }

  /** The two halves put back together give the name, the split is at the
      last separator, and the base name holds no separator; without an inner
      separator the base name is the whole name and the path is empty. */
  lemma NameSplit(name: string)
    ensures HasInnerSep(name) ==> Pathname(name) + Sep + Basename(name) == name
    ensures HasInnerSep(name) ==> OccursAt(name, Sep, |Pathname(name)|)
                                  && forall j :: |Pathname(name)| < j <= |name| ==> !OccursAt(name, Sep, j)
    ensures HasInnerSep(name) ==> forall j :: 0 <= j <= |Basename(name)| ==> !OccursAt(Basename(name), Sep, j)
    ensures !HasInnerSep(name) ==> Basename(name) == name && Pathname(name) == ""
  {
    if HasInnerSep(name) {
      var r := RFind(name, Sep);
      RFindLast(name, Sep);
      assert r >= 0 by {
        assert OccursAt(name, Sep, Find(name, Sep));
      }
      assert name[r..r + 2] == Sep;
      assert name == name[..r] + name[r..r + 2] + name[r + 2..];
      AfterLastAbsent(name, Sep);
    }
  }

  /** What `_name_and_type` returns. */
  datatype NameTypeAnn = NameTypeAnn(name: string, typ: string, annotation: string)

  /** `_name_and_type(blocks)`: the last token is the name; a second-to-last
      token starting with `@` is the annotation; the type is the rest,
      accumulated with a blank before each token and then stripped. Fewer than
      two tokens is an IndexError. */
  function NameAndType(blocks: seq<string>): Result<NameTypeAnn>
  {
    if |blocks| < 2 then Err
    else
      var name := blocks[|blocks| - 1];
      var ann := blocks[|blocks| - 2];
      if !StartsWith(ann, "@") then
        Ok(NameTypeAnn(name, Strip(FoldSpaced("", blocks[..|blocks| - 1])), ""))
      else
        Ok(NameTypeAnn(name, Strip(FoldSpaced("", blocks[..|blocks| - 2])), ann))
  }

  /** The tokens that make up the type: all but the name, and also all but
      the annotation when there is one. */
  function TypeTokens(blocks: seq<string>): seq<string>
    requires |blocks| >= 2
  {
    if StartsWith(blocks[|blocks| - 2], "@") then blocks[..|blocks| - 2] else blocks[..|blocks| - 1]
  }

  /** `_name_and_type` in terms of the space-join: it fails exactly on fewer
      than two tokens; otherwise the name is the last token, the annotation
      is the `@` token or empty, and the type is the stripped join of the
      remaining tokens. */
  lemma NameAndTypeJoin(blocks: seq<string>)
    ensures NameAndType(blocks).Err? <==> |blocks| < 2
    ensures |blocks| >= 2 ==>
      && NameAndType(blocks).value.name == blocks[|blocks| - 1]
      && NameAndType(blocks).value.typ == Strip(Join(TypeTokens(blocks)))
      && NameAndType(blocks).value.annotation
         == (if StartsWith(blocks[|blocks| - 2], "@") then blocks[|blocks| - 2] else "")
  {
    if |blocks| >= 2 {
      var ts := TypeTokens(blocks);
      var folded := FoldSpaced("", ts);
      assert NameAndType(blocks).value.typ == Strip(folded);
      FoldSpacedIsJoin("", ts);
      if ts != [] {
        assert folded == " " + Join(ts);
        StripLeadingBlank(Join(ts));
      }
    }
  }

  /** With tokens that are non-empty and carry no surrounding blanks, the
      type is exactly the space-join: stripping removes nothing. */
  lemma NameAndTypeCleanTokens(blocks: seq<string>)
    requires |blocks| >= 2
    requires forall i :: 0 <= i < |blocks| ==> Clean(blocks[i])
    ensures NameAndType(blocks).value.typ == Join(TypeTokens(blocks))
  {
    NameAndTypeJoin(blocks);
    var ts := TypeTokens(blocks);
    assert forall i :: 0 <= i < |ts| ==> ts[i] == blocks[i];
    if ts != [] {
      JoinClean(ts);
    }
    StripClean(Join(ts));
  }

  /** `is_root`: the node has no owning scope. */
  predicate IsRoot(n: Scope)
  {
    n.parent.None?
  }

  /** The node followed by its owning scopes, outermost last. */
  function Ancestors(n: Scope): (r: seq<Scope>)
    ensures r != [] && r[0] == n
  {
    match n.parent
    case None => [n]
    case Some(p) => [n] + Ancestors(p)
  }

  /** `root_node`: follow owning scopes until a node without one. */
  function RootNode(n: Scope): Scope
  {
    match n.parent
    case None => n
    case Some(p) => RootNode(p)
  }

  /** The root found is a root, is the outermost ancestor, and is the first
      ancestor-or-self that is a root. */
  lemma {:induction false} RootNodeIsOutermost(n: Scope)
    ensures IsRoot(RootNode(n))
    ensures RootNode(n) == Ancestors(n)[|Ancestors(n)| - 1]
    ensures forall i :: 0 <= i < |Ancestors(n)| - 1 ==> !IsRoot(Ancestors(n)[i])
  {
    match n.parent
    case None =>
    case Some(p) =>
      RootNodeIsOutermost(p);
      assert Ancestors(n) == [n] + Ancestors(p);
  }
}
