/** What the imports of a scope resolve (scripts/check_reachability.py `scoped_imports` and the
    dictionaries of the visitor): dictionaries and a walk outward through them, against what
    the import statements of the bodies around a place bind. */
module Scoping {
  import opened Prelude
  import opened PythonAst

  type Imports = map<string, Dotted>

  function Get(imports: Imports, id: string): Option<Dotted> {
    if id in imports then Some(imports[id]) else None
  }

  // --- Imports of one scope -----------------------------------------------------------------

  function BindAll(names: seq<Alias>, imports: Imports): Imports
    decreases names
  {
    if names == [] then imports
    else
      var a := names[0];
      var first := if a.name == [] then "" else a.name[0];
      BindAll(names[1..], if a.asname.Some? then imports[a.asname.value := a.name] else imports[first := [first]])
  }

  function BindFrom(source: Dotted, names: seq<Alias>, imports: Imports): Imports
    decreases names
  {
    if names == [] then imports
    else
      var a := names[0];
      var bound := if a.asname.Some? then a.asname.value else if a.name == [] then "" else a.name[0];
      BindFrom(source, names[1..], imports[bound := source + a.name])
  }

  /** `scoped_imports`: import statements of a body, not looking into nested definitions;
      relative imports are ignored and a later binding wins. */
  function ScopedImports(body: seq<Node>, imports: Imports): Imports
    decreases body
  {
    if body == [] then imports else ScopedImports(body[1..], ImportsIn(body[0], imports))
  }

  function ImportsIn(node: Node, imports: Imports): Imports
    decreases node, 0
  {
    match node
    case Import(names) => BindAll(names, imports)
    case ImportFrom(source, names, level) =>
      if level > 0 then imports
      else BindFrom(if source.Some? then source.value else ["None"], names, imports)
    case FunctionDef(_, _, _) => imports
    case ClassDef(_, _, _) => imports
    case Call(func, args, keywords) =>
      ScopedImports(keywords, ScopedImports(args, ImportsIn(func, imports)))
    case Attribute(value, _) => ImportsIn(value, imports)
    case Other(children) => ScopedImports(children, imports)
    case _ => imports
  }

  // --- Resolution by the scope chain -----------------------------------------------------------

  /** One enclosing scope; the module itself counts as a function scope. */
  datatype Scope = FunctionScope(imports: Imports) | ClassScope(imports: Imports)

  /** Walk outward. Once the walk has left a function, class bodies are skipped: a method
      does not see the names of the class around it. */
  function Lookup(chain: seq<Scope>, id: string, leftFunction: bool): Option<Dotted> {
    if chain == [] then None
    else
      var scope, outer := chain[|chain| - 1], chain[..|chain| - 1];
      if scope.ClassScope? && leftFunction then Lookup(outer, id, true)
      else if id in scope.imports then Some(scope.imports[id])
      else Lookup(outer, id, leftFunction || scope.FunctionScope?)
  }

  function Resolve(chain: seq<Scope>, id: string): Option<Dotted> {
    Lookup(chain, id, false)
  }

  // --- What a scope binds, over its statements ---------------------------------------------

  /** One name that an import statement mentions. */
  datatype Clause = Clause(stmt: Node, alias: Alias)

  function Head(name: Dotted): string {
    if name == [] then "" else name[0]
  }

  /** `from m import n` binds n to m.n, `import a.b` binds a to a, `import a.b as x` binds x to
      a.b, and a relative import binds nothing. */
  predicate Binds(c: Clause, id: string, target: Dotted) {
    match c.stmt
    case Import(_) =>
      if c.alias.asname.Some? then id == c.alias.asname.value && target == c.alias.name
      else id == Head(c.alias.name) && target == [Head(c.alias.name)]
    case ImportFrom(source, _, level) =>
      && level == 0
      && id == (if c.alias.asname.Some? then c.alias.asname.value else Head(c.alias.name))
      && target == (if source.Some? then source.value else ["None"]) + c.alias.name
    case _ => false
  }

  function ClausesOfAll(stmt: Node, names: seq<Alias>): seq<Clause> {
    seq(|names|, i requires 0 <= i < |names| => Clause(stmt, names[i]))
  }

  /** The import clauses of a body in order, outside nested definitions. */
  function Clauses(body: seq<Node>): seq<Clause>
    decreases body
  {
    if body == [] then [] else ClausesIn(body[0]) + Clauses(body[1..])
  }

  function ClausesIn(node: Node): seq<Clause>
    decreases node, 0
  {
    match node
    case Import(names) => ClausesOfAll(node, names)
    case ImportFrom(_, names, _) => ClausesOfAll(node, names)
    case FunctionDef(_, _, _) => []
    case ClassDef(_, _, _) => []
    case Call(func, args, keywords) => ClausesIn(func) + Clauses(args) + Clauses(keywords)
    case Attribute(value, _) => ClausesIn(value)
    case Other(children) => Clauses(children)
    case _ => []
  }

  /** No statement is passed over: an import clause of a listed statement, or of a node below
      one that is not a definition, is a clause of the body. */
  lemma {:induction false} ClausesAreAll(body: seq<Node>, i: nat, c: Clause)
    requires i < |body| && c in ClausesIn(body[i])
    ensures c in Clauses(body)
    decreases body
  {
    if i > 0 { ClausesAreAll(body[1..], i - 1, c); }
  }

  lemma ClausesBelow(node: Node, i: nat, c: Clause)
    requires !IsDefinition(node) && i < |Children(node)| && c in ClausesIn(Children(node)[i])
    ensures c in ClausesIn(node)
  {
    match node
    case Call(func, args, keywords) =>
      if 0 < i <= |args| {
        ClausesAreAll(args, i - 1, c);
      } else if i > |args| {
        ClausesAreAll(keywords, i - 1 - |args|, c);
      }
    case Other(children) => ClausesAreAll(children, i, c);
    case _ =>
  }

  ghost predicate Unbound(cs: seq<Clause>, id: string) {
    forall i, t :: 0 <= i < |cs| ==> !Binds(cs[i], id, t)
  }

  /** The last clause that binds `id` binds it to `target`. */
  ghost predicate LastBinding(cs: seq<Clause>, id: string, target: Dotted) {
    exists i :: 0 <= i < |cs| && Binds(cs[i], id, target) && Unbound(cs[i + 1..], id)
  }

  /** What the clauses make of a dictionary. */
  ghost predicate Effect(cs: seq<Clause>, before: Imports, after: Imports) {
    forall id, t :: Get(after, id) == Some(t) <==>
      LastBinding(cs, id, t) || (Unbound(cs, id) && Get(before, id) == Some(t))
  }

  lemma UnboundConcat(a: seq<Clause>, b: seq<Clause>, id: string)
    ensures Unbound(a + b, id) <==> Unbound(a, id) && Unbound(b, id)
  {
    var c := a + b;
    if Unbound(c, id) {
      forall i, t | 0 <= i < |a| ensures !Binds(a[i], id, t) { assert c[i] == a[i]; }
      forall i, t | 0 <= i < |b| ensures !Binds(b[i], id, t) { assert c[|a| + i] == b[i]; }
    }
  }

  lemma LastBindingConcat(a: seq<Clause>, b: seq<Clause>, id: string, t: Dotted)
    ensures LastBinding(a + b, id, t) <==> LastBinding(b, id, t) || (Unbound(b, id) && LastBinding(a, id, t))
  {
    var c := a + b;
    if i :| 0 <= i < |c| && Binds(c[i], id, t) && Unbound(c[i + 1..], id) {
      if i < |a| {
        assert c[i + 1..] == a[i + 1..] + b;
        UnboundConcat(a[i + 1..], b, id);
        assert a[i] == c[i];
      } else {
        assert c[i + 1..] == b[i - |a| + 1..] && b[i - |a|] == c[i];
      }
    }
    if i :| 0 <= i < |b| && Binds(b[i], id, t) && Unbound(b[i + 1..], id) {
      assert c[|a| + i] == b[i] && c[|a| + i + 1..] == b[i + 1..];
    }
    if i :| 0 <= i < |a| && Binds(a[i], id, t) && Unbound(a[i + 1..], id) && Unbound(b, id) {
      assert c[i] == a[i] && c[i + 1..] == a[i + 1..] + b;
      UnboundConcat(a[i + 1..], b, id);
    }
  }

  lemma EffectConcat(a: seq<Clause>, b: seq<Clause>, first: Imports, mid: Imports, last: Imports)
    requires Effect(a, first, mid) && Effect(b, mid, last)
    ensures Effect(a + b, first, last)
  {
    forall id, t ensures Get(last, id) == Some(t) <==>
      LastBinding(a + b, id, t) || (Unbound(a + b, id) && Get(first, id) == Some(t))
    {
      UnboundConcat(a, b, id);
      LastBindingConcat(a, b, id, t);
      assert Get(mid, id) == Some(t) <==> LastBinding(a, id, t) || (Unbound(a, id) && Get(first, id) == Some(t));
      assert Get(last, id) == Some(t) <==> LastBinding(b, id, t) || (Unbound(b, id) && Get(mid, id) == Some(t));
    }
  }

  lemma EffectNone(imports: Imports)
    ensures Effect([], imports, imports)
  {
  }

  lemma EffectOne(c: Clause, id: string, target: Dotted, imports: Imports)
    requires forall x, t :: Binds(c, x, t) <==> x == id && t == target
    ensures Effect([c], imports, imports[id := target])
  {
    forall x, t ensures Get(imports[id := target], x) == Some(t) <==>
      LastBinding([c], x, t) || (Unbound([c], x) && Get(imports, x) == Some(t))
    {
      if x == id {
        assert Binds([c][0], id, target);
        assert [c][0 + 1..] == [];
        assert Unbound([c][0 + 1..], id);
      }
    }
  }

  lemma EffectNothing(c: Clause, imports: Imports)
    requires forall x, t :: !Binds(c, x, t)
    ensures Effect([c], imports, imports)
  {
  }

  lemma {:induction false} BindAllEffect(stmt: Node, names: seq<Alias>, imports: Imports)
    requires stmt.Import?
    ensures Effect(ClausesOfAll(stmt, names), imports, BindAll(names, imports))
    decreases names
  {
    if names == [] {
      EffectNone(imports);
    } else {
      var a, c := names[0], Clause(stmt, names[0]);
      var id := if a.asname.Some? then a.asname.value else Head(a.name);
      var target := if a.asname.Some? then a.name else [Head(a.name)];
      EffectOne(c, id, target, imports);
      BindAllEffect(stmt, names[1..], imports[id := target]);
      assert ClausesOfAll(stmt, names) == [c] + ClausesOfAll(stmt, names[1..]);
      EffectConcat([c], ClausesOfAll(stmt, names[1..]), imports, imports[id := target], BindAll(names, imports));
    }
  }

  lemma {:induction false} BindFromEffect(stmt: Node, source: Dotted, names: seq<Alias>, imports: Imports)
    requires stmt.ImportFrom? && stmt.level == 0
    requires source == if stmt.source.Some? then stmt.source.value else ["None"]
    ensures Effect(ClausesOfAll(stmt, names), imports, BindFrom(source, names, imports))
    decreases names
  {
    if names == [] {
      EffectNone(imports);
    } else {
      var a, c := names[0], Clause(stmt, names[0]);
      var id := if a.asname.Some? then a.asname.value else Head(a.name);
      EffectOne(c, id, source + a.name, imports);
      BindFromEffect(stmt, source, names[1..], imports[id := source + a.name]);
      assert ClausesOfAll(stmt, names) == [c] + ClausesOfAll(stmt, names[1..]);
      EffectConcat([c], ClausesOfAll(stmt, names[1..]), imports, imports[id := source + a.name],
                   BindFrom(source, names, imports));
    }
  }

  lemma {:induction false} RelativeEffect(stmt: Node, names: seq<Alias>, imports: Imports)
    requires stmt.ImportFrom? && stmt.level > 0
    ensures Effect(ClausesOfAll(stmt, names), imports, imports)
    decreases names
  {
    if names == [] {
      EffectNone(imports);
    } else {
      var c := Clause(stmt, names[0]);
      EffectNothing(c, imports);
      RelativeEffect(stmt, names[1..], imports);
      assert ClausesOfAll(stmt, names) == [c] + ClausesOfAll(stmt, names[1..]);
      EffectConcat([c], ClausesOfAll(stmt, names[1..]), imports, imports, imports);
    }
  }

  lemma {:induction false} ScopedEffect(body: seq<Node>, imports: Imports)
    ensures Effect(Clauses(body), imports, ScopedImports(body, imports))
    decreases body
  {
    if body == [] {
      EffectNone(imports);
    } else {
      var mid := ImportsIn(body[0], imports);
      NodeEffect(body[0], imports);
      ScopedEffect(body[1..], mid);
      EffectConcat(ClausesIn(body[0]), Clauses(body[1..]), imports, mid, ScopedImports(body[1..], mid));
    }
  }

  lemma {:induction false} NodeEffect(node: Node, imports: Imports)
    ensures Effect(ClausesIn(node), imports, ImportsIn(node, imports))
    decreases node, 0
  {
    match node
    case Import(names) => BindAllEffect(node, names, imports);
    case ImportFrom(source, names, level) =>
      if level > 0 {
        RelativeEffect(node, names, imports);
      } else {
        BindFromEffect(node, if source.Some? then source.value else ["None"], names, imports);
      }
    case Call(func, args, keywords) =>
      var a := ImportsIn(func, imports);
      var b := ScopedImports(args, a);
      NodeEffect(func, imports);
      ScopedEffect(args, a);
      ScopedEffect(keywords, b);
      EffectConcat(ClausesIn(func), Clauses(args), imports, a, b);
      EffectConcat(ClausesIn(func) + Clauses(args), Clauses(keywords), imports, b, ScopedImports(keywords, b));
    case Attribute(value, _) => NodeEffect(value, imports);
    case Other(children) => ScopedEffect(children, imports);
    case _ => EffectNone(imports);
  }

  /** What a body's imports resolve, over its statements: the last clause that binds the name. */
  lemma ScopeBindsLast(body: seq<Node>, id: string, target: Dotted)
    ensures Get(ScopedImports(body, map[]), id) == Some(target) <==> LastBinding(Clauses(body), id, target)
  {
    ScopedEffect(body, map[]);
  }

  lemma {:induction false} LastBindingExists(cs: seq<Clause>, id: string)
    ensures Unbound(cs, id) <==> !exists t :: LastBinding(cs, id, t)
    decreases |cs|
  {
    if cs != [] && !Unbound(cs, id) {
      var init, last := cs[..|cs| - 1], cs[|cs| - 1];
      assert cs == init + [last];
      UnboundConcat(init, [last], id);
      if t :| Binds(last, id, t) {
        assert Binds(cs[|cs| - 1], id, t) && cs[|cs| - 1 + 1..] == [];
        assert Unbound(cs[|cs| - 1 + 1..], id);
        assert LastBinding(cs, id, t);
      } else {
        assert Unbound([last], id);
        LastBindingExists(init, id);
        var t :| LastBinding(init, id, t);
        LastBindingConcat(init, [last], id, t);
      }
    }
    if t :| LastBinding(cs, id, t) {
      var i :| 0 <= i < |cs| && Binds(cs[i], id, t);
      assert !Unbound(cs, id);
    }
  }

  lemma {:induction false} ClausesSplit(body: seq<Node>, i: nat)
    requires i < |body|
    ensures Clauses(body) == Clauses(body[..i]) + ClausesIn(body[i]) + Clauses(body[i + 1..])
    decreases i
  {
    if i == 0 {
      assert body[..0] == [];
    } else {
      ClausesSplit(body[1..], i - 1);
      assert body[1..][..i - 1] == body[..i][1..] && body[1..][i - 1 + 1..] == body[i + 1..];
    }
  }

  lemma SingleClauseBinds(stmt: Node, alias: Alias, id: string, target: Dotted)
    requires ClausesIn(stmt) == [Clause(stmt, alias)] && Binds(Clause(stmt, alias), id, target)
    ensures LastBinding(ClausesIn(stmt), id, target)
  {
    var cs := ClausesIn(stmt);
    assert Binds(cs[0], id, target) && cs[0 + 1..] == [];
    assert Unbound(cs[0 + 1..], id);
  }

  lemma LastStatementBinds(body: seq<Node>, i: nat, id: string, target: Dotted)
    requires i < |body| && Unbound(Clauses(body[i + 1..]), id) && LastBinding(ClausesIn(body[i]), id, target)
    ensures LastBinding(Clauses(body), id, target)
  {
    ClausesSplit(body, i);
    var before, own, after := Clauses(body[..i]), ClausesIn(body[i]), Clauses(body[i + 1..]);
    LastBindingConcat(before, own, id, target);
    LastBindingConcat(before + own, after, id, target);
  }

  // --- What is visible where, over the bodies around a place ---------------------------------

  datatype Frame = FunctionFrame(body: seq<Node>) | ClassFrame(body: seq<Node>)

  function ScopeOf(f: Frame): Scope {
    match f
    case FunctionFrame(body) => FunctionScope(ScopedImports(body, map[]))
    case ClassFrame(body) => ClassScope(ScopedImports(body, map[]))
  }

  function Scopes(frames: seq<Frame>): seq<Scope> {
    seq(|frames|, i requires 0 <= i < |frames| => ScopeOf(frames[i]))
  }

  /** Functions are seen from everywhere inside them; a class body only from itself and from
      classes nested directly in it, not from a function inside. */
  ghost predicate Seen(frames: seq<Frame>, k: int, fromFunction: bool) {
    && 0 <= k < |frames|
    && (frames[k].ClassFrame? ==> !fromFunction && forall j :: k < j < |frames| ==> frames[j].ClassFrame?)
  }

  /** The innermost body seen that binds `id` binds it, by its last clause, to `target`. */
  ghost predicate Visible(frames: seq<Frame>, fromFunction: bool, id: string, target: Dotted) {
    exists k :: VisibleAt(frames, fromFunction, id, target, k)
  }

  lemma SeenFromInside(init: seq<Frame>, last: Frame, fromFunction: bool, k: int)
    requires k < |init|
    ensures Seen(init + [last], k, fromFunction) <==> Seen(init, k, fromFunction || last.FunctionFrame?)
  {
    var frames := init + [last];
    if 0 <= k {
      assert frames[k] == init[k] && frames[|init|] == last;
      assert forall j :: 0 <= j < |init| ==> frames[j] == init[j];
    }
  }

  /** Body `k` is seen, binds `id` by its last clause, and no body inside it that is seen does. */
  ghost predicate VisibleAt(frames: seq<Frame>, fromFunction: bool, id: string, target: Dotted, k: int) {
    && Seen(frames, k, fromFunction)
    && LastBinding(Clauses(frames[k].body), id, target)
    && forall j :: k < j && Seen(frames, j, fromFunction) ==> Unbound(Clauses(frames[j].body), id)
  }

  lemma VisibleAtInner(init: seq<Frame>, last: Frame, fromFunction: bool, id: string, t: Dotted, k: int)
    requires k < |init|
    ensures VisibleAt(init + [last], fromFunction, id, t, k) <==>
              && ((last.ClassFrame? && fromFunction) || Unbound(Clauses(last.body), id))
              && VisibleAt(init, fromFunction || last.FunctionFrame?, id, t, k)
  {
    var frames, n, inner := init + [last], |init|, fromFunction || last.FunctionFrame?;
    assert frames[n] == last && forall j :: 0 <= j < n ==> frames[j] == init[j];
    forall j | j < n ensures Seen(frames, j, fromFunction) <==> Seen(init, j, inner) {
      SeenFromInside(init, last, fromFunction, j);
    }
    assert Seen(frames, n, fromFunction) <==> !(last.ClassFrame? && fromFunction);
  }

  lemma VisibleAtLast(init: seq<Frame>, last: Frame, fromFunction: bool, id: string, t: Dotted)
    ensures VisibleAt(init + [last], fromFunction, id, t, |init|) <==>
              !(last.ClassFrame? && fromFunction) && LastBinding(Clauses(last.body), id, t)
  {
    assert (init + [last])[|init|] == last;
  }

  /** The last body hides the others exactly if it is seen and binds the name. */
  lemma VisibleStep(init: seq<Frame>, last: Frame, fromFunction: bool, id: string, t: Dotted)
    ensures Visible(init + [last], fromFunction, id, t) <==>
              var hidden := last.ClassFrame? && fromFunction;
              || (!hidden && LastBinding(Clauses(last.body), id, t))
              || ((hidden || Unbound(Clauses(last.body), id))
                  && Visible(init, fromFunction || last.FunctionFrame?, id, t))
  {
    var inner := fromFunction || last.FunctionFrame?;
    VisibleAtLast(init, last, fromFunction, id, t);
    if k :| VisibleAt(init + [last], fromFunction, id, t, k) {
      if k < |init| { VisibleAtInner(init, last, fromFunction, id, t, k); }
    }
    if k :| VisibleAt(init, inner, id, t, k) {
      VisibleAtInner(init, last, fromFunction, id, t, k);
      assert VisibleAt(init + [last], fromFunction, id, t, k) || !Visible(init, inner, id, t)
             || !((last.ClassFrame? && fromFunction) || Unbound(Clauses(last.body), id));
    }
  }

  /** Walking outward through the dictionaries finds exactly what is visible in the bodies. */
  lemma {:induction false} LookupIsVisible(frames: seq<Frame>, fromFunction: bool, id: string, t: Dotted)
    ensures Lookup(Scopes(frames), id, fromFunction) == Some(t) <==> Visible(frames, fromFunction, id, t)
    decreases |frames|
  {
    if frames != [] {
      var init, last := frames[..|frames| - 1], frames[|frames| - 1];
      assert frames == init + [last];
      var chain := Scopes(frames);
      assert chain[..|chain| - 1] == Scopes(init) && chain[|chain| - 1] == ScopeOf(last);
      LookupIsVisible(init, fromFunction || last.FunctionFrame?, id, t);
      VisibleStep(init, last, fromFunction, id, t);
      LastBindingExists(Clauses(last.body), id);
      forall u ensures Get(ScopedImports(last.body, map[]), id) == Some(u) <==> LastBinding(Clauses(last.body), id, u) {
        ScopeBindsLast(last.body, id, u);
      }
      LookupStep(init, last, fromFunction, id);
    }
  }

  lemma LookupStep(init: seq<Frame>, last: Frame, fromFunction: bool, id: string)
    ensures var own := Get(ScopedImports(last.body, map[]), id);
            Lookup(Scopes(init + [last]), id, fromFunction) ==
              if (last.ClassFrame? && fromFunction) || own.None?
              then Lookup(Scopes(init), id, fromFunction || last.FunctionFrame?)
              else own
  {
    var chain := Scopes(init + [last]);
    assert chain[..|init|] == Scopes(init) && chain[|init|] == ScopeOf(last);
  }
}
