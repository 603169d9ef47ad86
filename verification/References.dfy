/** Which qualified names a file refers to (scripts/check_reachability.py
    `_referenced_names`): a visitor with mutable scope state, against resolution by a plain
    walk outward through the enclosing scopes. */
module References {
  import opened Prelude
  import opened PythonAst
  import opened Scoping

  datatype Ref = Qualified(name: Dotted) | Method(attr: string)

  /** What is fixed while one file is visited. */
  datatype Context = Context(module_: Dotted, local: set<string>, moduleSymbols: set<string>)

  /** The base and the attribute names of `base.a.b.c`. */
  function AttributeChain(node: Node): (Node, Dotted)
    requires node.Attribute?
  {
    if node.value.Attribute? then
      var (base, parts) := AttributeChain(node.value);
      (base, parts + [node.attr])
    else (node.value, [node.attr])
  }

  /** What the node itself contributes, given the resolver of its scope. */
  function OwnRefs(node: Node, resolve: string -> Option<Dotted>, enclosing: string, ctx: Context): set<Ref> {
    match node
    case Name(id, load) =>
      if !load then {}
      else
        var target := resolve(id);
        if target.Some? && target.value != [""] then {Qualified(target.value)}
        else if id in ctx.local && id != enclosing then {Qualified(ctx.module_ + [id])}
        else {}
    case Call(func, args, _) =>
      if func.Name? && func.id == "getattr" && |args| >= 2 && args[0].Name? && args[1].Constant?
         && args[1].text.Some? && resolve(args[0].id).Some?
      then {Qualified(resolve(args[0].id).value + [args[1].text.value])}
      else {}
    case Attribute(_, attr) =>
      var (base, parts) := AttributeChain(node);
      if base.Name? && resolve(base.id).Some? then {Qualified(resolve(base.id).value + parts)}
      else if attr !in ctx.moduleSymbols then {Method(attr)}
      else {}
    case _ => {}
  }

  function Resolver(chain: seq<Scope>): string -> Option<Dotted> {
    id => Resolve(chain, id)
  }

  /** The specification: pass the scope chain down the tree. */
  function Refs(nodes: seq<Node>, chain: seq<Scope>, enclosing: string, ctx: Context): set<Ref>
    decreases nodes
  {
    if nodes == [] then {}
    else RefsIn(nodes[0], chain, enclosing, ctx) + Refs(nodes[1..], chain, enclosing, ctx)
  }

  function RefsIn(node: Node, chain: seq<Scope>, enclosing: string, ctx: Context): set<Ref>
    decreases node, 0
  {
    OwnRefs(node, Resolver(chain), enclosing, ctx) +
    match node
    case FunctionDef(name, header, body) =>
      Refs(header, chain, enclosing, ctx)
      + Refs(body, chain + [FunctionScope(ScopedImports(body, map[]))], name, ctx)
    case ClassDef(_, header, body) =>
      Refs(header, chain, enclosing, ctx)
      + Refs(body, chain + [ClassScope(ScopedImports(body, map[]))], enclosing, ctx)
    case Call(func, args, keywords) =>
      RefsIn(func, chain, enclosing, ctx) + Refs(args, chain, enclosing, ctx) + Refs(keywords, chain, enclosing, ctx)
    case Attribute(value, _) => RefsIn(value, chain, enclosing, ctx)
    case Other(children) => Refs(children, chain, enclosing, ctx)
    case _ => {}
  }

  // --- The visitor ------------------------------------------------------------------------------

  /** The visitor's two dictionaries say what the scope chain says. */
  ghost predicate Mirrors(imports: Imports, functionImports: Imports, chain: seq<Scope>) {
    && (forall id :: Get(imports, id) == Lookup(chain, id, false))
    && (forall id :: Get(functionImports, id) == Lookup(chain, id, true))
  }

  lemma MirrorsFunction(imports: Imports, functionImports: Imports, chain: seq<Scope>, own: Imports)
    requires Mirrors(imports, functionImports, chain)
    ensures Mirrors(functionImports + own, functionImports + own, chain + [FunctionScope(own)])
  {
    var inner := chain + [FunctionScope(own)];
    assert inner[..|chain|] == chain;
    forall id
      ensures Get(functionImports + own, id) == Lookup(inner, id, false) == Lookup(inner, id, true)
    {
      assert Get(functionImports, id) == Lookup(chain, id, true);
    }
  }

  lemma MirrorsClass(imports: Imports, functionImports: Imports, chain: seq<Scope>, own: Imports)
    requires Mirrors(imports, functionImports, chain)
    ensures Mirrors(imports + own, functionImports, chain + [ClassScope(own)])
  {
    var inner := chain + [ClassScope(own)];
    assert inner[..|chain|] == chain;
    forall id
      ensures Get(imports + own, id) == Lookup(inner, id, false)
      ensures Get(functionImports, id) == Lookup(inner, id, true)
    {
      assert Get(imports, id) == Lookup(chain, id, false) && Get(functionImports, id) == Lookup(chain, id, true);
    }
  }

  /** `OwnRefs` looks at the resolver only through its answers. */
  lemma SameAnswersSameRefs(node: Node, f: string -> Option<Dotted>, g: string -> Option<Dotted>,
                            enclosing: string, ctx: Context)
    requires forall id :: f(id) == g(id)
    ensures OwnRefs(node, f, enclosing, ctx) == OwnRefs(node, g, enclosing, ctx)
  {
  }

  class Visitor {
    const ctx: Context
    var enclosing: string
    var imports: Imports
    var functionImports: Imports
    var names: set<Ref>

    constructor (ctx: Context, imports: Imports)
      ensures this.ctx == ctx && this.enclosing == "" && this.names == {}
      ensures this.imports == imports && this.functionImports == imports
    {
      this.ctx, this.enclosing, this.names := ctx, "", {};
      this.imports, this.functionImports := imports, imports;
    }

    /** Nothing but `names` differs after a subtree. */
    twostate predicate Restored()
      reads this
    {
      enclosing == old(enclosing) && imports == old(imports) && functionImports == old(functionImports)
    }

    method VisitAll(nodes: seq<Node>, ghost chain: seq<Scope>)
      requires Mirrors(imports, functionImports, chain)
      modifies this
      ensures Restored()
      ensures names == old(names) + Refs(nodes, chain, enclosing, ctx)
      decreases nodes, 1
    {
      if nodes != [] {
        Visit(nodes[0], chain);
        VisitAll(nodes[1..], chain);
      }
    }

    method Visit(node: Node, ghost chain: seq<Scope>)
      requires Mirrors(imports, functionImports, chain)
      modifies this
      ensures Restored()
      ensures names == old(names) + RefsIn(node, chain, enclosing, ctx)
      decreases node, 0
    {
      var visible := imports;
      SameAnswersSameRefs(node, id => Get(visible, id), Resolver(chain), enclosing, ctx);
      names := names + OwnRefs(node, id => Get(visible, id), enclosing, ctx);
      match node
      case FunctionDef(_, header, _) =>
        VisitAll(header, chain);
        VisitFunctionBody(node, chain);
      case ClassDef(_, header, _) =>
        VisitAll(header, chain);
        VisitClassBody(node, chain);
      case Call(func, args, keywords) =>
        Visit(func, chain);
        VisitAll(args, chain);
        VisitAll(keywords, chain);
      case Attribute(value, _) => Visit(value, chain);
      case Other(children) => VisitAll(children, chain);
      case _ =>
    }

    method VisitFunctionBody(node: Node, ghost chain: seq<Scope>)
      requires node.FunctionDef? && Mirrors(imports, functionImports, chain)
      modifies this
      ensures Restored()
      ensures var inner := chain + [FunctionScope(ScopedImports(node.body, map[]))];
              names == old(names) + Refs(node.body, inner, node.name, ctx)
      decreases node.body, 2
    {
      var own := ScopedImports(node.body, map[]);
      MirrorsFunction(imports, functionImports, chain, own);
      var previous := (enclosing, imports, functionImports);
      enclosing := node.name;
      imports := functionImports + own;
      functionImports := imports;
      VisitAll(node.body, chain + [FunctionScope(own)]);
      enclosing, imports, functionImports := previous.0, previous.1, previous.2;
    }

    method VisitClassBody(node: Node, ghost chain: seq<Scope>)
      requires node.ClassDef? && Mirrors(imports, functionImports, chain)
      modifies this
      ensures Restored()
      ensures var inner := chain + [ClassScope(ScopedImports(node.body, map[]))];
              names == old(names) + Refs(node.body, inner, enclosing, ctx)
      decreases node.body, 2
    {
      var own := ScopedImports(node.body, map[]);
      MirrorsClass(imports, functionImports, chain, own);
      var previous := imports;
      imports := imports + own;
      VisitAll(node.body, chain + [ClassScope(own)]);
      imports := previous;
    }
  }

  /** `_referenced_names`: the visitor finds exactly the references that the scope chain gives,
      starting from the module's own imports; that is, what the nodes of the file give where
      they stand. */
  method ReferencedNames(tree: seq<Node>, module_: Dotted, moduleSymbols: set<string>) returns (names: set<Ref>)
    ensures names == Refs(tree, [FunctionScope(ScopedImports(tree, map[]))], "",
                          Context(module_, LocalNames(tree), moduleSymbols))
    ensures forall r :: r in names <==>
              exists n, place ::
                && Read(tree, Place([FunctionFrame(tree)], ""), n, place)
                && Gives(n, place, r, Context(module_, LocalNames(tree), moduleSymbols))
  {
    var ctx := Context(module_, LocalNames(tree), moduleSymbols);
    var own := ScopedImports(tree, map[]);
    MirrorsFunction(map[], map[], [], own);
    assert [] + [FunctionScope(own)] == [FunctionScope(own)];
    assert map[] + own == own;
    var visitor := new Visitor(ctx, own);
    visitor.VisitAll(tree, [FunctionScope(own)]);
    names := visitor.names;
    RefsOfFile(tree, ctx);
  }

  /** The functions and classes that the file defines at its top level. */
  function LocalNames(tree: seq<Node>): set<string> {
    set n | n in tree && IsDefinition(n) :: n.name
  }

  // --- What the file's nodes give where they stand ---------------------------------------------

  /** The bodies around a node, outermost first, and the function it stands in. */
  datatype Place = Place(frames: seq<Frame>, enclosing: string)

  /** `n` stands at `place` if `nodes` stand at `at`. */
  ghost predicate Read(nodes: seq<Node>, at: Place, n: Node, place: Place)
    decreases nodes
  {
    nodes != [] && (ReadIn(nodes[0], at, n, place) || Read(nodes[1..], at, n, place))
  }

  ghost predicate ReadIn(node: Node, at: Place, n: Node, place: Place)
    decreases node, 0
  {
    || (n == node && place == at)
    || match node
       case FunctionDef(name, header, body) =>
         Read(header, at, n, place) || Read(body, Place(at.frames + [FunctionFrame(body)], name), n, place)
       case ClassDef(_, header, body) =>
         Read(header, at, n, place) || Read(body, Place(at.frames + [ClassFrame(body)], at.enclosing), n, place)
       case Call(func, args, keywords) =>
         ReadIn(func, at, n, place) || Read(args, at, n, place) || Read(keywords, at, n, place)
       case Attribute(value, _) => ReadIn(value, at, n, place)
       case Other(children) => Read(children, at, n, place)
       case _ => false
  }

  /** Where the `i`-th child of a node stands: decorators, arguments and bases with the
      definition itself, the body in a scope of its own. */
  function PlaceBelow(node: Node, at: Place, i: nat): Place {
    match node
    case FunctionDef(name, header, body) =>
      if i < |header| then at else Place(at.frames + [FunctionFrame(body)], name)
    case ClassDef(_, header, body) =>
      if i < |header| then at else Place(at.frames + [ClassFrame(body)], at.enclosing)
    case _ => at
  }

  lemma {:induction false} ReadListed(nodes: seq<Node>, at: Place, i: nat)
    requires i < |nodes|
    ensures Read(nodes, at, nodes[i], at)
    decreases nodes
  {
    if i > 0 { ReadListed(nodes[1..], at, i - 1); }
  }

  lemma ReadChild(node: Node, at: Place, i: nat)
    requires i < |Children(node)|
    ensures ReadIn(node, at, Children(node)[i], PlaceBelow(node, at, i))
  {
    match node
    case FunctionDef(_, header, body) =>
      if i < |header| { ReadListed(header, at, i); } else { ReadListed(body, PlaceBelow(node, at, i), i - |header|); }
    case ClassDef(_, header, body) =>
      if i < |header| { ReadListed(header, at, i); } else { ReadListed(body, PlaceBelow(node, at, i), i - |header|); }
    case Call(func, args, keywords) =>
      if 0 < i <= |args| {
        ReadListed(args, at, i - 1);
      } else if i > |args| {
        ReadListed(keywords, at, i - 1 - |args|);
      }
    case Other(children) => ReadListed(children, at, i);
    case _ =>
  }

  /** No node is passed over: the listed nodes are read, and with a node all its children. */
  lemma {:induction false} ChildrenAreRead(nodes: seq<Node>, at: Place, n: Node, place: Place, i: nat)
    requires Read(nodes, at, n, place) && i < |Children(n)|
    ensures Read(nodes, at, Children(n)[i], PlaceBelow(n, place, i))
    decreases nodes
  {
    if ReadIn(nodes[0], at, n, place) {
      ChildrenAreReadIn(nodes[0], at, n, place, i);
    } else {
      ChildrenAreRead(nodes[1..], at, n, place, i);
    }
  }

  lemma {:induction false} ChildrenAreReadIn(node: Node, at: Place, n: Node, place: Place, i: nat)
    requires ReadIn(node, at, n, place) && i < |Children(n)|
    ensures ReadIn(node, at, Children(n)[i], PlaceBelow(n, place, i))
    decreases node, 0
  {
    if n == node && place == at {
      ReadChild(node, at, i);
    } else {
      match node
      case FunctionDef(name, header, body) =>
        if Read(header, at, n, place) {
          ChildrenAreRead(header, at, n, place, i);
        } else {
          ChildrenAreRead(body, Place(at.frames + [FunctionFrame(body)], name), n, place, i);
        }
      case ClassDef(_, header, body) =>
        if Read(header, at, n, place) {
          ChildrenAreRead(header, at, n, place, i);
        } else {
          ChildrenAreRead(body, Place(at.frames + [ClassFrame(body)], at.enclosing), n, place, i);
        }
      case Call(func, args, keywords) =>
        if ReadIn(func, at, n, place) {
          ChildrenAreReadIn(func, at, n, place, i);
        } else if Read(args, at, n, place) {
          ChildrenAreRead(args, at, n, place, i);
        } else {
          ChildrenAreRead(keywords, at, n, place, i);
        }
      case Attribute(value, _) => ChildrenAreReadIn(value, at, n, place, i);
      case Other(children) => ChildrenAreRead(children, at, n, place, i);
    }
  }

  /** `base.a.b.c`. */
  function Dots(base: Node, parts: Dotted): Node {
    if parts == [] then base else Attribute(Dots(base, parts[..|parts| - 1]), parts[|parts| - 1])
  }

  predicate DotsOn(n: Node, id: string, parts: Dotted) {
    n == Dots(Name(id, true), parts) || n == Dots(Name(id, false), parts)
  }

  /** What a node gives where it stands. A loaded name gives what it is bound to, or else the
      file's own definition of that name unless it stands inside it; `getattr(m, "x")` gives
      x in what m is bound to; a dotted name gives the dotted name with its first part
      resolved, or else the name of a method, if no module defines it. */
  ghost predicate Gives(n: Node, place: Place, r: Ref, ctx: Context) {
    match n
    case Name(id, load) =>
      && load
      && ( || (exists t :: Visible(place.frames, false, id, t) && t != [""] && r == Qualified(t))
           || (&& (forall t :: Visible(place.frames, false, id, t) ==> t == [""])
               && id in ctx.local && id != place.enclosing && r == Qualified(ctx.module_ + [id])))
    case Call(func, args, _) =>
      && func.Name? && func.id == "getattr" && |args| >= 2
      && args[0].Name? && args[1].Constant? && args[1].text.Some?
      && exists t :: Visible(place.frames, false, args[0].id, t) && r == Qualified(t + [args[1].text.value])
    case Attribute(_, attr) =>
      || (exists id, parts, t ::
            DotsOn(n, id, parts) && Visible(place.frames, false, id, t) && r == Qualified(t + parts))
      || (&& attr !in ctx.moduleSymbols && r == Method(attr)
          && forall id, parts, t :: DotsOn(n, id, parts) ==> !Visible(place.frames, false, id, t))
    case _ => false
  }

  lemma {:induction false} ChainIsDots(n: Node)
    requires n.Attribute?
    ensures var (base, parts) := AttributeChain(n); !base.Attribute? && parts != [] && n == Dots(base, parts)
  {
    if n.value.Attribute? {
      ChainIsDots(n.value);
      var (base, parts) := AttributeChain(n.value);
      assert (parts + [n.attr])[..|parts|] == parts;
    } else {
      assert [n.attr][..0] == [];
      assert Dots(n.value, []) == n.value;
    }
  }

  lemma {:induction false} DotsAreUnique(a: Node, p: Dotted, b: Node, q: Dotted)
    requires !a.Attribute? && !b.Attribute? && Dots(a, p) == Dots(b, q)
    ensures a == b && p == q
    decreases |p|
  {
    if p != [] && q != [] {
      DotsAreUnique(a, p[..|p| - 1], b, q[..|q| - 1]);
      assert p == p[..|p| - 1] + [p[|p| - 1]] && q == q[..|q| - 1] + [q[|q| - 1]];
    }
  }

  lemma DotsOnIsChain(n: Node, id: string, parts: Dotted)
    requires n.Attribute?
    ensures DotsOn(n, id, parts) <==>
              var (base, chain) := AttributeChain(n); base.Name? && base.id == id && chain == parts
  {
    ChainIsDots(n);
    var (base, chain) := AttributeChain(n);
    if n == Dots(Name(id, true), parts) { DotsAreUnique(base, chain, Name(id, true), parts); }
    if n == Dots(Name(id, false), parts) { DotsAreUnique(base, chain, Name(id, false), parts); }
  }

  lemma OwnRefsAreGiven(n: Node, place: Place, r: Ref, ctx: Context)
    ensures r in OwnRefs(n, Resolver(Scopes(place.frames)), place.enclosing, ctx) <==> Gives(n, place, r, ctx)
  {
    var resolve := Resolver(Scopes(place.frames));
    forall id, t ensures resolve(id) == Some(t) <==> Visible(place.frames, false, id, t) {
      LookupIsVisible(place.frames, false, id, t);
    }
    match n
    case Name(id, _) => assert resolve(id).None? <==> forall t :: !Visible(place.frames, false, id, t);
    case Attribute(_, _) => AttributeIsGiven(n, place, r, ctx, resolve);
    case _ =>
  }

  lemma AttributeIsGiven(n: Node, place: Place, r: Ref, ctx: Context, resolve: string -> Option<Dotted>)
    requires n.Attribute? && forall id, t :: resolve(id) == Some(t) <==> Visible(place.frames, false, id, t)
    ensures r in OwnRefs(n, resolve, place.enclosing, ctx) <==> Gives(n, place, r, ctx)
  {
    var (base, chain) := AttributeChain(n);
    forall id, parts ensures DotsOn(n, id, parts) <==> base.Name? && base.id == id && chain == parts {
      DotsOnIsChain(n, id, parts);
    }
    if base.Name? && resolve(base.id).Some? {
      var t := resolve(base.id).value;
      assert DotsOn(n, base.id, chain) && Visible(place.frames, false, base.id, t);
    }
  }

  ghost predicate SomeGives(nodes: seq<Node>, at: Place, r: Ref, ctx: Context) {
    exists n, place :: Read(nodes, at, n, place) && Gives(n, place, r, ctx)
  }

  ghost predicate SomeInGives(node: Node, at: Place, r: Ref, ctx: Context) {
    exists n, place :: ReadIn(node, at, n, place) && Gives(n, place, r, ctx)
  }

  lemma ScopesExtend(frames: seq<Frame>, f: Frame)
    ensures Scopes(frames + [f]) == Scopes(frames) + [ScopeOf(f)]
  {
  }

  lemma {:induction false} RefsAreGiven(nodes: seq<Node>, at: Place, r: Ref, ctx: Context)
    ensures r in Refs(nodes, Scopes(at.frames), at.enclosing, ctx) <==> SomeGives(nodes, at, r, ctx)
    decreases nodes
  {
    if nodes != [] {
      RefsInAreGiven(nodes[0], at, r, ctx);
      RefsAreGiven(nodes[1..], at, r, ctx);
      SomeGivesSplit(nodes, at, r, ctx);
    }
  }

  lemma SomeGivesSplit(nodes: seq<Node>, at: Place, r: Ref, ctx: Context)
    requires nodes != []
    ensures SomeGives(nodes, at, r, ctx) <==>
              SomeInGives(nodes[0], at, r, ctx) || SomeGives(nodes[1..], at, r, ctx)
  {
    if n, place :| Read(nodes, at, n, place) && Gives(n, place, r, ctx) {
      assert ReadIn(nodes[0], at, n, place) || Read(nodes[1..], at, n, place);
    }
    if n, place :| ReadIn(nodes[0], at, n, place) && Gives(n, place, r, ctx) {
      assert Read(nodes, at, n, place);
    }
    if n, place :| Read(nodes[1..], at, n, place) && Gives(n, place, r, ctx) {
      assert Read(nodes, at, n, place);
    }
  }

  lemma {:induction false} RefsInAreGiven(node: Node, at: Place, r: Ref, ctx: Context)
    ensures r in RefsIn(node, Scopes(at.frames), at.enclosing, ctx) <==> SomeInGives(node, at, r, ctx)
    decreases node, 0
  {
    OwnRefsAreGiven(node, at, r, ctx);
    SomeInGivesSplit(node, at, r, ctx);
    match node
    case FunctionDef(name, header, body) =>
      RefsAreGiven(header, at, r, ctx);
      ScopesExtend(at.frames, FunctionFrame(body));
      RefsAreGiven(body, Place(at.frames + [FunctionFrame(body)], name), r, ctx);
    case ClassDef(_, header, body) =>
      RefsAreGiven(header, at, r, ctx);
      ScopesExtend(at.frames, ClassFrame(body));
      RefsAreGiven(body, Place(at.frames + [ClassFrame(body)], at.enclosing), r, ctx);
    case Call(func, args, keywords) =>
      RefsInAreGiven(func, at, r, ctx);
      RefsAreGiven(args, at, r, ctx);
      RefsAreGiven(keywords, at, r, ctx);
    case Attribute(value, _) => RefsInAreGiven(value, at, r, ctx);
    case Other(children) => RefsAreGiven(children, at, r, ctx);
    case _ =>
  }

  ghost predicate BelowGives(node: Node, at: Place, r: Ref, ctx: Context) {
    match node
    case FunctionDef(name, header, body) =>
      || SomeGives(header, at, r, ctx)
      || SomeGives(body, Place(at.frames + [FunctionFrame(body)], name), r, ctx)
    case ClassDef(_, header, body) =>
      || SomeGives(header, at, r, ctx)
      || SomeGives(body, Place(at.frames + [ClassFrame(body)], at.enclosing), r, ctx)
    case Call(func, args, keywords) =>
      SomeInGives(func, at, r, ctx) || SomeGives(args, at, r, ctx) || SomeGives(keywords, at, r, ctx)
    case Attribute(value, _) => SomeInGives(value, at, r, ctx)
    case Other(children) => SomeGives(children, at, r, ctx)
    case _ => false
  }

  lemma SomeInGivesSplit(node: Node, at: Place, r: Ref, ctx: Context)
    ensures SomeInGives(node, at, r, ctx) <==> Gives(node, at, r, ctx) || BelowGives(node, at, r, ctx)
  {
    if Gives(node, at, r, ctx) {
      assert ReadIn(node, at, node, at);
    }
  }

  lemma RefsOfFile(tree: seq<Node>, ctx: Context)
    ensures forall r :: r in Refs(tree, [FunctionScope(ScopedImports(tree, map[]))], "", ctx) <==>
              exists n, place :: Read(tree, Place([FunctionFrame(tree)], ""), n, place) && Gives(n, place, r, ctx)
  {
    var at := Place([FunctionFrame(tree)], "");
    assert Scopes(at.frames) == [FunctionScope(ScopedImports(tree, map[]))];
    forall r ensures r in Refs(tree, Scopes(at.frames), "", ctx) <==> SomeGives(tree, at, r, ctx) {
      RefsAreGiven(tree, at, r, ctx);
    }
  }

  /** Spelled out for the commonest case: in a file whose last binding of `id` is
      `from m import n` (or `from m import n as id`), a load of that name at module level puts
      m.n into the result, and not the file's own definition of that name. */
  lemma FromImportIsReferenced(
      tree: seq<Node>, i: nat, source: Dotted, alias: Alias, id: string, j: nat, ctx: Context, names: set<Ref>)
    requires i < |tree| && tree[i] == ImportFrom(Some(source), [alias], 0)
    requires id == if alias.asname.Some? then alias.asname.value else Head(alias.name)
    requires source + alias.name != [""] && Unbound(Clauses(tree[i + 1..]), id)
    requires j < |tree| && tree[j] == Name(id, true)
    requires names == Refs(tree, [FunctionScope(ScopedImports(tree, map[]))], "", ctx)
    ensures Qualified(source + alias.name) in names
    ensures forall r :: Gives(tree[j], Place([FunctionFrame(tree)], ""), r, ctx) ==> r == Qualified(source + alias.name)
  {
    var at, target := Place([FunctionFrame(tree)], ""), source + alias.name;
    RefsOfFile(tree, ctx);
    ReadListed(tree, at, j);
    SingleClauseBinds(tree[i], alias, id, target);
    LastStatementBinds(tree, i, id, target);
    assert VisibleAt(at.frames, false, id, target, 0);
    forall t ensures Lookup(Scopes(at.frames), id, false) == Some(t) <==> Visible(at.frames, false, id, t) {
      LookupIsVisible(at.frames, false, id, t);
    }
    assert Gives(tree[j], at, Qualified(target), ctx);
  }

  // --- Class bodies are invisible to their methods --------------------------------------------------

  ghost predicate SameAnswers(a: seq<Scope>, b: seq<Scope>) {
    forall id, left :: Lookup(a, id, left) == Lookup(b, id, left)
  }

  lemma SameAnswersExtend(a: seq<Scope>, b: seq<Scope>, scope: Scope)
    requires SameAnswers(a, b)
    ensures SameAnswers(a + [scope], b + [scope])
  {
    assert (a + [scope])[..|a|] == a && (b + [scope])[..|b|] == b;
  }

  /** References depend on the chain only through what it resolves. */
  lemma {:induction false} RefsFollowAnswers(
      nodes: seq<Node>, a: seq<Scope>, b: seq<Scope>, enclosing: string, ctx: Context)
    requires SameAnswers(a, b)
    ensures Refs(nodes, a, enclosing, ctx) == Refs(nodes, b, enclosing, ctx)
    decreases nodes
  {
    if nodes != [] {
      RefsInFollowAnswers(nodes[0], a, b, enclosing, ctx);
      RefsFollowAnswers(nodes[1..], a, b, enclosing, ctx);
    }
  }

  lemma {:induction false} RefsInFollowAnswers(
      node: Node, a: seq<Scope>, b: seq<Scope>, enclosing: string, ctx: Context)
    requires SameAnswers(a, b)
    ensures RefsIn(node, a, enclosing, ctx) == RefsIn(node, b, enclosing, ctx)
    decreases node, 0
  {
    SameAnswersSameRefs(node, Resolver(a), Resolver(b), enclosing, ctx);
    match node
    case FunctionDef(name, header, body) =>
      RefsFollowAnswers(header, a, b, enclosing, ctx);
      var scope := FunctionScope(ScopedImports(body, map[]));
      SameAnswersExtend(a, b, scope);
      RefsFollowAnswers(body, a + [scope], b + [scope], name, ctx);
    case ClassDef(_, header, body) =>
      RefsFollowAnswers(header, a, b, enclosing, ctx);
      var scope := ClassScope(ScopedImports(body, map[]));
      SameAnswersExtend(a, b, scope);
      RefsFollowAnswers(body, a + [scope], b + [scope], enclosing, ctx);
    case Call(func, args, keywords) =>
      RefsInFollowAnswers(func, a, b, enclosing, ctx);
      RefsFollowAnswers(args, a, b, enclosing, ctx);
      RefsFollowAnswers(keywords, a, b, enclosing, ctx);
    case Attribute(value, _) => RefsInFollowAnswers(value, a, b, enclosing, ctx);
    case Other(children) => RefsFollowAnswers(children, a, b, enclosing, ctx);
    case _ =>
  }

  /** Inside a method body, at any depth, the imports of the class body around it make no
      difference: any other class imports `theirs` give the same references. */
  lemma MethodsIgnoreClassImports(method_: Node, outer: seq<Scope>, ours: Imports, theirs: Imports, ctx: Context)
    requires method_.FunctionDef?
    ensures var own := FunctionScope(ScopedImports(method_.body, map[]));
            Refs(method_.body, outer + [ClassScope(ours)] + [own], method_.name, ctx)
            == Refs(method_.body, outer + [ClassScope(theirs)] + [own], method_.name, ctx)
            == Refs(method_.body, outer + [own], method_.name, ctx)
  {
    var own := FunctionScope(ScopedImports(method_.body, map[]));
    ClassScopeIsSkipped(outer, ours, own);
    ClassScopeIsSkipped(outer, theirs, own);
    RefsFollowAnswers(method_.body, outer + [ClassScope(ours)] + [own], outer + [own], method_.name, ctx);
    RefsFollowAnswers(method_.body, outer + [ClassScope(theirs)] + [own], outer + [own], method_.name, ctx);
  }

  lemma ClassScopeIsSkipped(outer: seq<Scope>, class_: Imports, own: Scope)
    requires own.FunctionScope?
    ensures SameAnswers(outer + [ClassScope(class_)] + [own], outer + [own])
  {
    var with, without := outer + [ClassScope(class_)] + [own], outer + [own];
    var mid := outer + [ClassScope(class_)];
    assert with[..|with| - 1] == mid && mid[..|outer|] == outer && without[..|outer|] == outer;
    forall id, left ensures Lookup(with, id, left) == Lookup(without, id, left) {
      assert Lookup(mid, id, true) == Lookup(outer, id, true);
    }
  }
}
