# IDL parser and type resolver, modelled in Dafny

This project models the core of a hand-written recursive-descent parser for a
small CORBA-like interface definition language, and its name-resolution
routine (`refine_typename`) over the scope tree the parser builds. Nothing in
the source calls `refine_typename`: its call sites (`struct.py:73`,
`idl_parser/interface.py:53` and `idl_parser/interface.py:156`) are commented
out. The model treats it as a routine a caller could invoke directly.

The parser reads a token buffer front to back. `pop` gives the next token, or
None once the buffer is exhausted. The buffer is a `seq<string>` with a cursor:
`Tokens.TokenStream`, whose `Pop` returns `None` at the end and leaves the
cursor there.

The tree is built from these scopes:

- **Global module.** The unnamed root (`__global__`). It needs no braces and
  ends with the buffer.
- **Modules.** `module X { ... };` Modules are found or created by name, then
  parsed in place.
- **Interfaces.** `interface X { ... };` Interfaces are found or created the
  same way.
- **Visibility sections.** `public:`, `protected:` and `private:` each have at
  most one section per interface. A section holds `typedef`, `struct`,
  `union`, `enum` and `const` declarations. It also holds methods: each bare
  `;`-terminated run of tokens is one method.
- **Structs.** Brace-delimited member lists, optionally with inline `union`
  members.
- **Methods.** An optional `oneway`, `constructor` or `destructor` modifier,
  a return type, a name, an `@annotation`, `(`, and arguments separated by
  `,` and closed by `)`.

Every node is a value (a `datatype`). Each parse loop appears twice:

- as a function over the token sequence and a position, which is the
  specification;
- as a `method` with the `while True` loop of the original, which pops from a
  `TokenStream`.

The method's contract ties its result and the stream's final cursor to the
function. A parse returns `Parsed(value, pos, ok)`:

- `value` is the node as it stood when the parse returned or raised.
- `pos` is the cursor position.
- `ok` is false for every syntax error. The source raises
  `InvalidIDLSyntaxError` or meets an `IndexError`, and both are modelled as
  the same failure.

So the model keeps the difference between children appended *before* their
body is parsed (module, interface, section) and children appended *after*
(struct, union, enum, const, method). In the first group a failure leaves a
partial child attached; in the second it does not.

Name resolution (`refine_typename`, when called) looks a type expression up
with the root's `find_types`. `find_types` searches depth first:

1. nested modules;
2. then each interface's public, protected and private sections;
3. within a section, structs, then unions (public only), then typedefs, then
   enums.

The first node found gives the bare name. `sequence<...>` is rewritten
around the resolved inner type.

Some properties are stated in source terms:

- **Round trips.** A struct body written from member entries parses back to
  those members. A method written from its parts parses back to them. Two
  small examples exercise whole sections and modules.
- **Invariants the parsers keep.** Struct, union, enum and const names stay
  distinct in a section, keeping the first declaration of each name: a
  duplicate is still parsed in full (so a broken body still fails), then
  dropped without a failure. An interface has at most one section per
  visibility. Protected and private sections hold no unions. Interface names
  in a module are unique.
- **Success conditions.** Every successful struct, section, interface and
  module parse ends on `}` `;`, or, for the global module, at the end of the
  buffer.
- **Search order.** The nested result of `find_types` flattens to exactly the
  matching declarations, in depth-first declaration order. The name resolved
  is the last path segment of the first of them.

A `union` in a protected or private section always fails: the lookup there
reads a misspelt attribute (`unionss`). The model keeps that failure.

A const's name is the third-from-last token of its declaration, so the
tokens `long @c MAX 100` give the name `@c` and the type `MAX long`
(`interface.py:449-454`, `Sections.ConstExample`).

## Model

| member | source | states |
|---|---|---|
| Tokens.TokenStream.Pop | module.py:55 | `token_buf.pop()`: the next token, advancing by one; None at the end without moving |
| PyStr.FindFirst | idl_parser/node.py:71 | `find` returns the first occurrence, or -1 when there is none |
| PyStr.RFindLast | idl_parser/node.py:72 | `rfind` returns the last occurrence, or -1 when there is none |
| PyStr.RFindIs | idl_parser/node.py:135 | an occurrence with none after it is the one `rfind` returns |
| PyStr.FoldSpacedIsJoin | idl_parser/node.py:93-97 | the loop `type = type + ' ' + t` appends a space and the space-join of the tokens, or nothing for no tokens |
| PyStr.JoinClean | idl_parser/node.py:98 | a space-join of clean tokens has no surrounding blanks, so the final strip is a no-op |
| PyStr.Strip | struct.py:85 | `strip()` never lengthens and leaves no whitespace at either end |
| PyStr.StripTrims | struct.py:85 | the result of `strip()` is a slice of `s` with only whitespace outside it, so with Strip's ends it is `s` with exactly its surrounding whitespace removed |
| PyStr.StripUnique | struct.py:85 | any slice of `s` with only whitespace outside it and none at its own ends is the result of `strip()` |
| PyStr.RemoveAllAbsent | idl_parser/node.py:133 | `replace(pat, '')` leaves a string without `pat` unchanged |
| PyStr.RemoveAllSkips | idl_parser/node.py:133 | `replace` passes over text in which the pattern cannot start |
| PyStr.RemoveAllDrops | idl_parser/node.py:133 | `replace` deletes an occurrence at the front |
| PyStr.RemoveAllSplits | idl_parser/node.py:133 | `replace` on `a + b` is `replace` on `a` followed by `replace` on `b` when no occurrence starts in `a` and runs into `b` |
| PyStr.AfterLastAbsent | idl_parser/node.py:135 | the text after the last `::` holds no `::` |
| Node.NameSplit | idl_parser/node.py:69-79 | with `::` first found past position 0: `pathname + "::" + basename == name`, the `::` after `pathname` is the last one in `name`, and `basename` holds no `::`; otherwise `basename == name` and `pathname == ""` |
| Node.NameAndTypeJoin | idl_parser/node.py:86-99 | fails exactly on fewer than two tokens; name is the last token; annotation is the `@` token before it or `''`; type is the stripped space-join of the rest |
| Node.NameAndTypeCleanTokens | idl_parser/node.py:86-99 | with clean tokens the type is exactly the space-join of the type tokens |
| Node.RootNodeIsOutermost | idl_parser/node.py:101-114 | `root_node` is a root, the outermost ancestor, and the first ancestor-or-self with no parent |
| Leaf.BracedLoopReads | struct.py:127-134 | an inline union body `{ body } ;` without `}` inside is read back verbatim, ending just after `;` |
| Leaf.BracedLoopUnclosed | struct.py:127-134 | without a `}` ahead, a union body never closes |
| Leaf.ParseUnion | idl_parser/interface.py:414-417 | a union parse succeeds only with a popped name, which becomes the union's name |
| Leaf.ParseEnum | idl_parser/interface.py:426-428 | an enum parse succeeds only with a popped name, which becomes the enum's name |
| Leaf.ParseBraced | struct.py:130-131 | the body-reading loop ends where, and as, the braced-body function says |
| Structs.NewStruct | struct.py:84-89 | a new struct has the stripped name and no members |
| Structs.StructPathJoins | struct.py:90-92 | `full_path` is the scope path, `::` and the name; the final strip changes nothing unless the ends carry whitespace |
| Structs.NewStructPath | struct.py:84-92 | a struct made from a name token has the path `scope::stripped name` |
| Structs.ArraySuffixRejoin | struct.py:22-26 | the split at `[` and the rejoin give the name back unchanged |
| Structs.ParseMemberFields | struct.py:19-29 | a member fails exactly on fewer than two tokens; its name is the last token verbatim, `[N]` included; the annotation is the `@` token or `''`; the type is the stripped join of the rest |
| Structs.ParseStructTokens | struct.py:112-147 | the popping loop ends exactly where, and with the struct, the struct-body function gives |
| Structs.StructLoopEntry | struct.py:127-147 | one `;`-terminated member block, or one `union N {...};`, appends exactly one member; the union member has no name and the union as its type |
| Structs.StructLoopEntries | struct.py:143-156 | a run of entries appends their members in source order |
| Structs.StructBodyReadsEntries | struct.py:112-156 | round trip: `{ entries } ;` parses to exactly the entries' members, in order, consuming every token |
| Structs.StructBodyAt | struct.py:112-156 | the same round trip for `{ entries } ;` standing anywhere in the buffer, ending just after it |
| Structs.StructLoopCloses | struct.py:120-141 | a successful struct parse ends on `}` `;`; with no `}` ahead the buffer runs out and the parse fails |
| Structs.StructLoopKeepsName | struct.py:120-147 | parsing a struct body changes only its member list |
| Structs.MemberByName | struct.py:165-169 | the first member with an equal name, or None exactly when none has it |
| Methods.ParseArgumentFields | idl_parser/interface.py:17-30 | fails exactly for an empty run, a leading `inout`, or fewer than two tokens after the direction; direction `out` only for a leading `out`, else `in`; name and type from `_name_and_type` on the rest |
| Methods.ParseMethodBlocks | idl_parser/interface.py:66-117 | the index loop over the method's tokens computes the method the parse function gives |
| Methods.MethodHeader | idl_parser/interface.py:72-100 | success needs `@...` at `index-2` and `(` at `index-1`; the first token picks exactly one modifier; constructor/destructor are named by the next token with no return type; otherwise the return type is `blocks[0]` and the name `blocks[1]` |
| Methods.ArgScanOne | idl_parser/interface.py:101-117 | a non-empty run closed by `,` or `)` appends exactly its argument |
| Methods.ArgScanStops | idl_parser/interface.py:106-108 | a `,` or `)` with nothing pending ends the scan and the later tokens are ignored |
| Methods.ArgScanReads | idl_parser/interface.py:101-117 | round trip: runs separated by `,` and closed by `)` give one argument per run, in order |
| Methods.MethodReads | idl_parser/interface.py:66-117 | round trip: a method written from modifier, return type, name, annotation and argument runs parses back to exactly those |
| Methods.TwoArguments | idl_parser/interface.py:101-117 | `in long @a a , out string @b b )` gives arguments `a: long, in` and `b: string, out` |
| Methods.ArgOfExample | idl_parser/interface.py:17-30 | a run `dir type @ann name` gives that name, type and direction |
| Methods.ArgumentByName | idl_parser/interface.py:144-148 | the first argument with an equal name, or None exactly when none has it |
| Sections.NewSection | idl_parser/interface.py:333-341 | a new section has its visibility and empty lists |
| Sections.FirstNamed | idl_parser/interface.py:495-588 | every `*_by_name`: the first element with that name, or None exactly when none has it |
| Sections.CollectTokens | idl_parser/interface.py:386-394 | the typedef collection loop gathers tokens up to `;`; the end of the buffer fails |
| Sections.CollectUntilSemiReads | idl_parser/interface.py:386-394 | tokens without `;` followed by `;` are collected verbatim, ending after the `;` |
| Sections.CollectUntilSemiUnclosed | idl_parser/interface.py:386-390 | with no `;` ahead the collection fails at the end of the buffer |
| Sections.ConstLoopNeverEnds | idl_parser/interface.py:440-444 | as written, with no `;` ahead the const loop never stops, for any number of pops |
| Sections.ConstLoopAgrees | idl_parser/interface.py:440-444 | where a `;` follows, the loop as written and the corrected loop collect the same tokens |
| Sections.ConstWithoutSemicolon | idl_parser/interface.py:438-447 | `{ const long N 1` with no `;`: the loop as written never ends, and the corrected parse fails |
| Sections.ConstFields | idl_parser/interface.py:449-454 | value is the last token; name is the third from last; type is the second from last followed by the earlier tokens, space-joined and stripped |
| Sections.ConstExample | idl_parser/interface.py:449-454 | `long @c MAX 100` gives name `@c`, type `MAX long`, value `100` |
| Sections.ParseTypedef | idl_parser/interface.py:385-399 | the typedef branch's popping loop ends where, and with the section, the typedef reader gives |
| Sections.ParseStruct | idl_parser/interface.py:401-411 | the struct branch's popping loop ends where, and with the section, the struct reader gives |
| Sections.ParseUnionDecl | idl_parser/interface.py:413-423 | the union branch's popping loop ends where, and with the section, the union reader gives |
| Sections.ParseEnumDecl | idl_parser/interface.py:425-436 | the enum branch's popping loop ends where, and with the section, the enum reader gives |
| Sections.ParseConst | idl_parser/interface.py:438-462 | the const branch's popping loop, with the end-of-buffer check supplied, ends where, and with the section, the const reader gives |
| Sections.ParseSectionTokens | idl_parser/interface.py:370-478 | a section's popping loop ends exactly where, and with the section, the section-body function gives |
| Sections.ReadStructKeeps | idl_parser/interface.py:401-411 | a struct declaration only appends, and keeps struct names distinct |
| Sections.ReadUnionKeeps | idl_parser/interface.py:413-423 | a union declaration only appends and keeps union names distinct; outside the public section it fails and changes nothing |
| Sections.ReadEnumKeeps | idl_parser/interface.py:425-436 | an enum declaration only appends and keeps enum names distinct |
| Sections.ReadConstKeeps | idl_parser/interface.py:438-462 | a const declaration only appends and keeps const names distinct |
| Sections.ReadStructDuplicate | idl_parser/interface.py:401-411 | a struct whose name is taken is still parsed in full; the declaration succeeds exactly when its body parses, ends where the body ends, and leaves the section unchanged, so the first struct of that name stays |
| Sections.ReadUnionDuplicate | idl_parser/interface.py:413-423 | the same for a union whose name is taken in the public section |
| Sections.ReadEnumDuplicate | idl_parser/interface.py:425-436 | the same for an enum whose name is taken |
| Sections.ReadConstDuplicate | idl_parser/interface.py:438-462 | a const whose name is taken consumes its tokens up to `;`, succeeds, and leaves the section unchanged |
| Sections.SectionLoopStruct | idl_parser/interface.py:401-411 | `struct N { entries } ;` consumes its tokens and appends the struct of those entries, unless a struct named `N` exists, in which case the section is unchanged |
| Sections.DuplicateStructExample | idl_parser/interface.py:370-469 | `{ struct S { long a ; } ; struct S { long b ; } ; } ;` parses successfully and keeps one struct `S`, the first, with its member `a` |
| Sections.SectionLoopKeeps | idl_parser/interface.py:378-477 | every section parse, successful or not, only appends and keeps names distinct; protected and private sections never gain unions |
| Sections.SectionBodyKeeps | idl_parser/interface.py:370-477 | the same for the whole section body |
| Sections.UnionOutsidePublicFails | idl_parser/interface.py:827-831 | any `union` in a protected or private section makes the parse fail (`unionss` lookup) |
| Sections.SectionLoopCloses | idl_parser/interface.py:464-469 | a successful section parse ends just after `}` `;` |
| Sections.SectionLoopMethod | idl_parser/interface.py:471-477 | a `;`-terminated run of other tokens is one method, appended when it parses, a failure otherwise |
| Sections.SectionLoopTypedef | idl_parser/interface.py:385-399 | `typedef tokens ;` appends the typedef of those tokens, whatever is pending |
| Sections.SectionLoopConst | idl_parser/interface.py:438-462 | `const tokens ;` appends the const unless its name is taken |
| Sections.SectionLoopEnds | idl_parser/interface.py:464-469 | `}` `;` ends the section successfully; a pending run without its `;` is dropped |
| Sections.SectionExample | idl_parser/interface.py:370-489 | `{ typedef long Count ; void ping @a ( ) ; } ;` gives one typedef and one method |
| Sections.PingMethod | idl_parser/interface.py:66-117 | `void ping @a ( )` is a method `ping` returning `void` with no arguments |
| Sections.Decls | idl_parser/interface.py:515-593 | the `for_each_*` traversal visits the elements in order, each with its name and full path |
| Sections.SelectMembers | idl_parser/interface.py:600-602 | `parse_node` keeps exactly the nodes whose name or full path equals the stripped query |
| Sections.SelectFirst | idl_parser/interface.py:600-602 | the first node kept is the first matching node visited |
| Sections.SectionFind | idl_parser/interface.py:595-597 | a primitive name yields its type node without searching |
| Sections.SectionFindMembers | idl_parser/interface.py:595-614 | a section's result is exactly the matching structs, unions (public only), typedefs and enums |
| Sections.SectionFindNoUnion | idl_parser/interface.py:892-910 | protected and private sections never return a union |
| Sections.SectionFindTypes | idl_parser/interface.py:595-614 | the closure-based accumulation computes the section's result |
| Sections.SectionFindFlat | idl_parser/interface.py:595-614 | a section's result is flat, in visiting order: structs, unions, typedefs, enums |
| Interfaces.NewInterface | idl_parser/interface.py:165-170 | a new interface has the popped name and no sections |
| Interfaces.MarkerOf | idl_parser/interface.py:207-231 | exactly `public:`, `protected:` and `private:` select a section, of the visibility they name |
| Interfaces.WithSections | idl_parser/interface.py:212-231 | updating one visibility's sections leaves the other two and the name alone |
| Interfaces.SectionIndex | idl_parser/interface.py:252-284 | `public_by_name` and its siblings: the first section with that name, or past the end |
| Interfaces.SectionByName | idl_parser/interface.py:252-284 | a section found has the name looked up; None means no section of that visibility has it |
| Interfaces.ParseInterfaceTokens | idl_parser/interface.py:193-243 | the interface's popping loop ends exactly where, and with the interface, the interface-body function gives |
| Interfaces.ReadSectionKeeps | idl_parser/interface.py:207-231 | a marker reuses the existing section, so each visibility has at most one section, and its contents stay well formed |
| Interfaces.InterfaceLoopKeeps | idl_parser/interface.py:200-241 | every interface parse, successful or not, keeps at most one section per visibility |
| Interfaces.InterfaceBodyKeeps | idl_parser/interface.py:193-241 | the same for the whole interface body |
| Interfaces.InterfaceLoopCloses | idl_parser/interface.py:236-241 | a successful interface parse ends just after `}` `;` |
| Interfaces.InterfaceFind | idl_parser/interface.py:297-299 | a primitive name yields its type node |
| Interfaces.InterfaceFindFlat | idl_parser/interface.py:297-318 | flattened, an interface's result is the matching declarations of its public, then protected, then private sections; each non-empty section result is one nested list |
| Interfaces.InterfaceFindTypes | idl_parser/interface.py:297-318 | the closure-based accumulation computes the interface's result |
| Interfaces.AppendGroups | idl_parser/interface.py:306-314 | visiting a list of sections appends their non-empty results in order |
| Modules.NewModule | module.py:10-17 | a module built without a name is named `__global__`; a new module has no children |
| Modules.ChildPath | module.py:23-30 | `full_path` is the bare name under a scope with an empty path, else `scope::name` |
| Modules.ModuleIndex | module.py:93-97 | `module_by_name`: the first submodule with that name, or past the end; a missing name matches none |
| Modules.InterfaceIndex | module.py:109-113 | `interface_by_name`: the first interface with that (possibly missing) name, or past the end |
| Modules.ModuleByName | module.py:93-97 | a module found has the name looked up; None means none has it |
| Modules.InterfaceByName | module.py:109-113 | an interface found has the name looked up; None means none has it |
| Modules.ParseModuleTokens | module.py:46-85 | the module's popping loop, recursive for submodules, ends exactly where, and with the module, the module-body function gives |
| Modules.ModuleLoopSkips | module.py:54-83 | tokens other than `module`, `interface` and `}` are skipped without effect |
| Modules.ModuleBodyEdges | module.py:48-60 | a non-global module must open with `{`; at the end of the buffer the global module ends normally and any other fails; `}` must be followed by `;` |
| Modules.ReadSubmoduleAppends | module.py:61-67 | `module X` finds or creates the submodule and attaches it before parsing its body, so a new one stays attached even on failure; the others are untouched |
| Modules.ReadInterfaceAppends | module.py:69-75 | the same for `interface X` |
| Modules.ModuleBodyKeeps | module.py:46-85 | every module parse, successful or not, keeps interface names unique per module (and submodule names unique except `__global__`), all the way down |
| Modules.ModuleLoopCloses | module.py:54-85 | a successful module parse ends at the end of the buffer for the global module, or just after `}` `;` |
| Modules.ModuleExample | module.py:46-85 | `module A { interface I { } ; } ;` gives one submodule `A` holding one empty interface `I` |
| Modules.ModuleFind | module.py:121-123 | a primitive name yields a one-element list without searching |
| Modules.ModuleCollectFlat | module.py:121-147 | flattened, the result is the matching declarations in depth-first order (submodules first, then the module's own interfaces); each non-empty interface result is one nested list |
| Modules.CollectTypes | module.py:136-145 | the recursive `parse_module` appends exactly the module's depth-first result to the shared list |
| Modules.ModuleFindTypes | module.py:121-147 | `find_types` as the recursion it is computes the module's result |
| Refine.FirstNodeFlat | idl_parser/node.py:128-131 | `level_path` descends into element 0 of the nested lists and reaches the first node of the flattened result |
| Refine.ShortenAsWritten | idl_parser/node.py:133-135 | as written: visibility substrings deleted, then the text after the last `::`, which holds no `::` |
| Refine.ShortenEatsName | idl_parser/node.py:133-135 | as written, a name starting with `public` in interface `i` resolves to `i` glued to the rest of the name |
| Refine.DeletionsKeepName | idl_parser/node.py:133 | deleting the visibility substrings from `scope::name` changes only the scope when `name` does not start with a visibility word |
| Refine.ShortenAgrees | idl_parser/node.py:133-135 | for `scope::name` with a name that holds no `:` and does not start with a visibility word, as written and by last segment both give `name` |
| Refine.DeclShortenAgrees | idl_parser/node.py:127-138 | for a declaration whose name does not start with a visibility word, the as-written shortening of its full path is its own name, as corrected |
| Refine.ShortenPublicKey | idl_parser/node.py:133-135 | struct `publicKey` in interface `I` resolves to `IKey` as written, and to `publicKey` by its last segment |
| Refine.BareName | idl_parser/node.py:135 | the bare name holds no `::` |
| Refine.BareNameOfPath | idl_parser/node.py:135 | the bare name of `scope::name` is `name` |
| Refine.BareNameOfDecl | idl_parser/node.py:127-138 | the bare name of a declaration's full path is its own name, for a name with no `:` and no whitespace at its end, under a scope path that does not start with whitespace |
| Refine.RootFindGrouped | idl_parser/node.py:124-130 | every list `find_types` nests is non-empty, so `level_path` always reaches a node |
| Refine.ResolveFirstDecl | idl_parser/node.py:124-138 | with no declaration matching, the input comes back unchanged, as written and corrected; otherwise the corrected result is the bare name, and the as-written result the shortened path, of the first matching declaration in depth-first order |
| Refine.PublicKeyRootDecls | module.py:121-147 | a root holding interface `I` with a public struct `publicKey` visits exactly one declaration, at `::I::public::publicKey` |
| Refine.ResolvePublicKey | idl_parser/node.py:124-138 | resolving `publicKey` against that root gives `IKey` as written and `publicKey` corrected |
| Refine.ResolveEmptyRoot | idl_parser/node.py:124-126 | against an empty root, a non-primitive name resolves to itself |
| Refine.PeelCorrected | idl_parser/node.py:118-119 | between the first `<` and the last `>`, `sequence<x>` peels to `x` |
| Refine.RefineCorrectedPeels | idl_parser/node.py:118-121 | the rewrite of `sequence<x>` is `sequence < ` + rewrite of `x` + ` >`, for nesting of any depth |
| Refine.InnerAgrees | idl_parser/node.py:119 | on a one-level `sequence<x>` the slices to the first and to the last `>` both give `x` |
| Refine.RefineAgrees | idl_parser/node.py:116-121 | for a plain type and a one-level sequence the rewrite as written and corrected agree |
| Refine.PeelOuterAsWritten | idl_parser/node.py:119 | as written, `sequence<sequence<x>>` peels to `sequence<x`, cut at the first `>` |
| Refine.PeelInnerAsWritten | idl_parser/node.py:119 | as written, the unclosed `sequence<x` peels to `x` without its last character (end index -1) |
| Refine.RefineTruncatesNested | idl_parser/node.py:116-121 | as written, `sequence<sequence<x>>` looks up `x` minus its last character; the corrected rewrite looks up `x` |
| Refine.RefineTruncatesLong | idl_parser/node.py:116-121 | `sequence<sequence<long>>` looks up `lon` as written and `long` corrected |
| Refine.MemberTypeRead | struct.py:50-58 | the `type` getter never changes the stored type |
| Refine.MemberTypeWarns | struct.py:50-58 | the getter prints its diagnostic exactly for a basic, non-primitive named type that no declaration under the root matches |

## Left out

- Output projections are not modelled: `to_dic` and `to_simple_dic`, and the
  `get_type` accessor. They only shape output.
- I/O is not modelled: `sys.stdout.write` and `print` diagnostics, the
  `_verbose` flags and `filepath` bookkeeping. Refine.MemberTypeRead models the
  getter's diagnostic as a `warns` flag.
- `post_process` and `_post_process` are not modelled. Their bodies are
  commented out, so they do nothing.
- The lexer and the concrete token buffer are not modelled. Only `pop` is:
  tokens from the front, None at the end.
- `type.py`, `union.py`, `enum.py`, `typedef.py` and `const.py` are not part of
  this model. They appear as stand-ins (`Leaf`):
  - a union or enum body is a `{ ... } ;` brace pair, kept as raw tokens;
  - a typedef is named by its last token and never fails;
  - a const is the `(name, type, value)` triple computed at its call site.
- `type.is_primitive` is the parameter set `prims`. The `full_path` of a
  primitive type node is the function `typePath`. Whether a member's type
  object is of the basic type class is the boolean `basic`.
- `exception.py` is not part of this model. Every raise, including the
  argument-less raises whose constructor needs an argument, and every
  `IndexError`, is the single failure `ok == false` (or `Err`).
- Nodes do not hold references to their parents, and objects are not updated
  in place. Both are modelled on values:
  - each parse returns the node's new value;
  - an owning scope's path is passed down as a string;
  - `Node.Scope` models the parent chain for `is_root` and `root_node`.

  So aliasing between a child and its parent's list is not modelled; a
  child's in-place update is its replacement at its index.
- The `for_each_*` filter callbacks are not modelled. Only the traversal order
  that `find_types` relies on is kept (`Sections.Decls`).
- An interface created from a missing name (the buffer ended after
  `interface`) uses the empty text in its path. The source would fail on the
  concatenation there.
- The `full_path` of unions, enums and typedefs is taken as
  `scope + "::" + name`, because their classes are not part of this model.
- Sections.ReadStructKeeps, Sections.SectionLoopKeeps,
  Sections.SectionBodyKeeps, Interfaces.ReadSectionKeeps and the
  `Modules.*Keeps` lemmas assume the tokenizer delivers tokens without
  surrounding whitespace (`Stripped`). For a struct, the duplicate check
  compares the stored (stripped) name with the raw token, so with padded
  tokens two structs of one name could both be kept.
- Sections.ReadStructKeeps states growth and distinct names only. The
  keep-first rule for a struct whose name is taken (parsed in full, `ok` as
  its body's, section unchanged) is Sections.ReadStructDuplicate.
- Sections.ReadUnionKeeps states growth, distinct names and the failure
  outside the public section only. The keep-first rule for a public union
  whose name is taken is Sections.ReadUnionDuplicate.
- Sections.ReadEnumKeeps states growth and distinct names only. The
  keep-first rule for an enum whose name is taken is
  Sections.ReadEnumDuplicate.
- Sections.ReadConstKeeps states growth and distinct names only. The
  keep-first rule for a const whose name is taken (success, section
  unchanged) is Sections.ReadConstDuplicate.
- Modules.ModuleBodyKeeps does not claim unique submodule names for
  `__global__`. A `module` keyword at the very end of the buffer creates a
  submodule of that name without finding the earlier one, and the source does
  the same.
- PyStr.IsSpace is the whitespace of Python 2's byte-string `strip()`: blank,
  tab, line feed, carriage return, vertical tab and form feed. The wider
  Unicode whitespace that Python 3 or a `unicode` string would strip is not
  modelled, since the source is Python 2 code working on byte strings.
- Sections.ConstValuesAsWritten bounds the loop as written with `fuel`. That
  loop never ends when no `;` remains, so `fuel` is what makes the
  non-termination expressible.

## Findings

| source | as written | input that shows it | evidently intended | confidence | as-written member | corrected member |
|---|---|---|---|---|---|---|
| idl_parser/interface.py:440-444 | the const token loop appends whatever `pop` returns and stops only at `;`; at the end of the buffer `pop` keeps returning None, so the loop never ends | a section body `{ const long N 1` with no `;` after it | fail with a syntax error at the end of the buffer, as the typedef loop does (`interface.py:389-390`) | not executed | Sections.ConstValuesAsWritten, Sections.ConstLoopNeverEnds, Sections.ConstWithoutSemicolon | Sections.CollectUntilSemi, Sections.ConstLoopAgrees, Sections.ReadConst |
| idl_parser/node.py:119 | the inner type is sliced from the first `<` to the first `>`; for nested sequences the inner call finds no `>`, the end index is -1, and the last character is cut | a direct call of `refine_typename` on `sequence<sequence<long>>` rewrites it to `sequence < sequence < lon > >`; latent, since every call site is commented out | slice up to the matching (last) `>`, giving `sequence < sequence < long > >` | not executed | Refine.RefineAsWritten, Refine.RefineTruncatesNested, Refine.RefineTruncatesLong | Refine.RefineCorrected, Refine.RefineCorrectedPeels, Refine.RefineAgrees, Refine.RefineTypename |
| idl_parser/node.py:133-135 | `replace('::public','')` (and the same for protected and private) deletes the substring anywhere, including the start of a name segment that begins with that word | a direct call of `refine_typename` on `publicKey`, where struct `publicKey` in the public section of interface `I` at the root has the path `::I::public::publicKey`, resolves it to `IKey`; latent, since every call site is commented out | drop only the visibility levels, so the last segment, the declaration's own name `publicKey`, is returned | not executed | Refine.ShortenAsWritten, Refine.ResolveAsWritten, Refine.ShortenEatsName, Refine.ResolvePublicKey | Refine.BareName, Refine.BareNameOfDecl, Refine.DeclShortenAgrees, Refine.Resolve |
