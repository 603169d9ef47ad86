/** Module reachability: the worklist of `_orphan_modules` against paths in the import
    graph (scripts/check_reachability.py). */
module ImportGraph {
  import opened Prelude
  import opened PythonAst
  import opened Graphs

  // --- The graph of a repository -------------------------------------------------------------

  /** `_prefixes`: the name and all its parent packages. */
  function Prefixes(name: Dotted): set<Dotted> {
    set i | 1 <= i <= |name| :: name[..i]
  }

  /** Python's `parts[:stop]`, which counts a negative stop from the end. */
  function SliceTo(parts: Dotted, stop: int): Dotted {
    if stop >= |parts| then parts
    else if stop >= 0 then parts[..stop]
    else if |parts| + stop >= 0 then parts[..|parts| + stop]
    else []
  }

  /** Joining no parts gives the empty text, which has the one part "". */
  function JoinParts(parts: Dotted): Dotted {
    if parts == [] then [""] else parts
  }

  function SourceOf(node: Node, package: Dotted): Dotted
    requires node.ImportFrom?
  {
    if node.level > 0 then
      JoinParts(SliceTo(package, |package| - node.level + 1) + if node.source.Some? then node.source.value else [])
    else if node.source.Some? then node.source.value
    else [""]
  }

  predicate IsModuleString(text: string) {
    "verdict." <= text && ' ' !in text
  }

  /** The names one node contributes to `_module_dependencies`. */
  function OwnDependencies(node: Node, package: Dotted): set<Dotted> {
    match node
    case Import(names) => set a, p | a in names && p in Prefixes(a.name) :: p
    case ImportFrom(_, names, _) =>
      var source := SourceOf(node, package);
      Prefixes(source) + set a | a in names :: source + a.name
    case Constant(Some(text)) =>
      if IsModuleString(text) then Prefixes(Split(Split(text, ':')[0], '.')) else {}
    case _ => {}
  }

  /** `ast.walk` over a list of statements. */
  function Dependencies(nodes: seq<Node>, package: Dotted): set<Dotted>
    decreases nodes
  {
    if nodes == [] then {}
    else DependenciesOf(nodes[0], package) + Dependencies(nodes[1..], package)
  }

  function DependenciesOf(node: Node, package: Dotted): set<Dotted>
    decreases node, 0
  {
    OwnDependencies(node, package) +
    match node
    case FunctionDef(_, header, body) => Dependencies(header, package) + Dependencies(body, package)
    case ClassDef(_, header, body) => Dependencies(header, package) + Dependencies(body, package)
    case Call(func, args, keywords) =>
      DependenciesOf(func, package) + Dependencies(args, package) + Dependencies(keywords, package)
    case Attribute(value, _) => DependenciesOf(value, package)
    case Other(children) => Dependencies(children, package)
    case _ => {}
  }

  // --- What a tree depends on, node by node ---------------------------------------------------

  ghost predicate Within(nodes: seq<Node>, n: Node)
    decreases nodes
  {
    nodes != [] && (WithinNode(nodes[0], n) || Within(nodes[1..], n))
  }

  ghost predicate WithinNode(node: Node, n: Node)
    decreases node, 0
  {
    || n == node
    || match node
       case FunctionDef(_, header, body) => Within(header, n) || Within(body, n)
       case ClassDef(_, header, body) => Within(header, n) || Within(body, n)
       case Call(func, args, keywords) => WithinNode(func, n) || Within(args, n) || Within(keywords, n)
       case Attribute(value, _) => WithinNode(value, n)
       case Other(children) => Within(children, n)
       case _ => false
  }

  lemma {:induction false} ListedIsWithin(nodes: seq<Node>, i: nat)
    requires i < |nodes|
    ensures Within(nodes, nodes[i])
    decreases nodes
  {
    if i > 0 { ListedIsWithin(nodes[1..], i - 1); }
  }

  lemma ChildIsWithin(node: Node, i: nat)
    requires i < |Children(node)|
    ensures WithinNode(node, Children(node)[i])
  {
    match node
    case FunctionDef(_, header, body) =>
      if i < |header| { ListedIsWithin(header, i); } else { ListedIsWithin(body, i - |header|); }
    case ClassDef(_, header, body) =>
      if i < |header| { ListedIsWithin(header, i); } else { ListedIsWithin(body, i - |header|); }
    case Call(func, args, keywords) =>
      if 0 < i <= |args| {
        ListedIsWithin(args, i - 1);
      } else if i > |args| {
        ListedIsWithin(keywords, i - 1 - |args|);
      }
    case Other(children) => ListedIsWithin(children, i);
    case _ =>
  }

  /** The walk passes no node over: with a node it reaches all its children. */
  lemma {:induction false} ChildrenAreWithin(nodes: seq<Node>, n: Node, i: nat)
    requires Within(nodes, n) && i < |Children(n)|
    ensures Within(nodes, Children(n)[i])
    decreases nodes
  {
    if WithinNode(nodes[0], n) {
      ChildrenAreWithinNode(nodes[0], n, i);
    } else {
      ChildrenAreWithin(nodes[1..], n, i);
    }
  }

  lemma {:induction false} ChildrenAreWithinNode(node: Node, n: Node, i: nat)
    requires WithinNode(node, n) && i < |Children(n)|
    ensures WithinNode(node, Children(n)[i])
    decreases node, 0
  {
    if n == node {
      ChildIsWithin(node, i);
    } else {
      match node
      case FunctionDef(_, header, body) =>
        if Within(header, n) { ChildrenAreWithin(header, n, i); } else { ChildrenAreWithin(body, n, i); }
      case ClassDef(_, header, body) =>
        if Within(header, n) { ChildrenAreWithin(header, n, i); } else { ChildrenAreWithin(body, n, i); }
      case Call(func, args, keywords) =>
        if WithinNode(func, n) {
          ChildrenAreWithinNode(func, n, i);
        } else if Within(args, n) {
          ChildrenAreWithin(args, n, i);
        } else {
          ChildrenAreWithin(keywords, n, i);
        }
      case Attribute(value, _) => ChildrenAreWithinNode(value, n, i);
      case Other(children) => ChildrenAreWithin(children, n, i);
    }
  }

  /** `d` is the dotted name `m` or one of its parent packages. */
  predicate IsPrefixOf(d: Dotted, m: Dotted) {
    d != [] && d <= m
  }

  /** What a node makes its file depend on. `import a.b.c` names a, a.b and a.b.c;
      `from m import n` names m with its parents, and m.n; a relative import of level k in a
      package of n parts starts from the first n - k + 1 of them; a text such as
      "verdict.x.y:main" names verdict, verdict.x and verdict.x.y. */
  ghost predicate Depends(node: Node, package: Dotted, d: Dotted) {
    match node
    case Import(names) => exists a :: a in names && IsPrefixOf(d, a.name)
    case ImportFrom(source, names, level) =>
      var m := NamedSource(source, level, package);
      IsPrefixOf(d, m) || exists a :: a in names && d == m + a.name
    case Constant(Some(text)) =>
      && |text| >= 8 && text[..8] == "verdict." && ' ' !in text
      && exists parts, rest ::
           && NameText(parts, rest, text)
           && IsPrefixOf(d, parts)
    case _ => false
  }

  /** The module that a from-import names. A level beyond the package counts back from its end
      once more, as a negative slice does. */
  function NamedSource(source: Option<Dotted>, level: nat, package: Dotted): Dotted {
    var named := if source.Some? then source.value else [];
    var n := |package|;
    if level == 0 then (if source.None? then [""] else named)
    else
      var take := if level <= n + 1 then n + 1 - level else if level <= 2 * n + 1 then 2 * n + 1 - level else 0;
      if take == 0 && named == [] then [""] else package[..take] + named
  }

  lemma SourceIs(node: Node, package: Dotted)
    requires node.ImportFrom?
    ensures SourceOf(node, package) == NamedSource(node.source, node.level, package)
  {
    if node.level > 0 {
      var n, named := |package|, if node.source.Some? then node.source.value else [];
      var take := if node.level <= n + 1 then n + 1 - node.level
                  else if node.level <= 2 * n + 1 then 2 * n + 1 - node.level else 0;
      assert package[..n] == package;
      assert SliceTo(package, n - node.level + 1) == package[..take];
      assert take > 0 ==> package[..take] + named != [];
      assert take == 0 ==> package[..take] + named == named;
    }
  }

  /** The text is the dotted name `parts`, alone or followed by a colon and `rest`. */
  predicate NameText(parts: Dotted, rest: seq<string>, text: string) {
    && parts != [] && (forall p :: p in parts ==> '.' !in p && ':' !in p) && (forall r :: r in rest ==> ':' !in r)
    && text == JoinWith([JoinWith(parts, '.')] + rest, ':')
  }

  lemma PrefixesAre(m: Dotted, d: Dotted)
    ensures d in Prefixes(m) <==> IsPrefixOf(d, m)
  {
    if IsPrefixOf(d, m) { assert d == m[..|d|]; }
  }

  lemma {:induction false} JoinedWithout(parts: Dotted, sep: char, c: char)
    requires c != sep && forall p :: p in parts ==> c !in p
    ensures c !in JoinWith(parts, sep)
  {
    if |parts| > 1 { JoinedWithout(parts[1..], sep, c); }
  }

  lemma {:induction false} PiecesWithout(s: string, sep: char, c: char)
    requires c !in s
    ensures forall p :: p in Split(s, sep) ==> c !in p
  {
    if s != "" { PiecesWithout(s[1..], sep, c); }
  }

  lemma NameTextIsSplit(text: string, parts: Dotted, rest: seq<string>)
    requires NameText(parts, rest, text)
    ensures parts == Split(Split(text, ':')[0], '.')
  {
    var name := JoinWith(parts, '.');
    JoinedWithout(parts, '.', ':');
    SplitOfJoined([name] + rest, ':');
    SplitOfJoined(parts, '.');
  }

  lemma SplitIsNameText(text: string) returns (parts: Dotted, rest: seq<string>)
    ensures NameText(parts, rest, text) && parts == Split(Split(text, ':')[0], '.')
  {
    var pieces := Split(text, ':');
    parts, rest := Split(pieces[0], '.'), pieces[1..];
    SplitGivesPieces(text, ':');
    SplitGivesPieces(pieces[0], '.');
    PiecesWithout(pieces[0], '.', ':');
    assert [pieces[0]] + rest == pieces;
  }

  lemma StringDepends(text: string, package: Dotted, d: Dotted)
    ensures d in OwnDependencies(Constant(Some(text)), package) <==> Depends(Constant(Some(text)), package, d)
  {
    assert IsModuleString(text) <==> |text| >= 8 && text[..8] == "verdict." && ' ' !in text;
    var parts, rest := SplitIsNameText(text);
    PrefixesAre(parts, d);
    forall p, r | NameText(p, r, text) ensures p == parts {
      NameTextIsSplit(text, p, r);
    }
  }

  lemma OwnDependenciesAre(node: Node, package: Dotted, d: Dotted)
    ensures d in OwnDependencies(node, package) <==> Depends(node, package, d)
  {
    match node
    case Import(names) =>
      forall a | a in names ensures d in Prefixes(a.name) <==> IsPrefixOf(d, a.name) {
        PrefixesAre(a.name, d);
      }
    case ImportFrom(source, _, level) =>
      SourceIs(node, package);
      PrefixesAre(SourceOf(node, package), d);
    case Constant(Some(text)) => StringDepends(text, package, d);
    case _ =>
  }

  ghost predicate SomeDepends(nodes: seq<Node>, package: Dotted, d: Dotted) {
    exists n :: Within(nodes, n) && Depends(n, package, d)
  }

  ghost predicate SomeInDepends(node: Node, package: Dotted, d: Dotted) {
    exists n :: WithinNode(node, n) && Depends(n, package, d)
  }

  /** A tree depends on exactly what its nodes name, wherever they stand. */
  lemma {:induction false} DependenciesAre(nodes: seq<Node>, package: Dotted, d: Dotted)
    ensures d in Dependencies(nodes, package) <==> SomeDepends(nodes, package, d)
    decreases nodes
  {
    if nodes != [] {
      NodeDependenciesAre(nodes[0], package, d);
      DependenciesAre(nodes[1..], package, d);
    }
  }

  lemma {:induction false} NodeDependenciesAre(node: Node, package: Dotted, d: Dotted)
    ensures d in DependenciesOf(node, package) <==> SomeInDepends(node, package, d)
    decreases node, 0
  {
    OwnDependenciesAre(node, package, d);
    assert WithinNode(node, node);
    match node
    case FunctionDef(_, header, body) =>
      DependenciesAre(header, package, d);
      DependenciesAre(body, package, d);
    case ClassDef(_, header, body) =>
      DependenciesAre(header, package, d);
      DependenciesAre(body, package, d);
    case Call(func, args, keywords) =>
      NodeDependenciesAre(func, package, d);
      DependenciesAre(args, package, d);
      DependenciesAre(keywords, package, d);
    case Attribute(value, _) => NodeDependenciesAre(value, package, d);
    case Other(children) => DependenciesAre(children, package, d);
    case _ =>
  }

  // --- Files, edges and roots -----------------------------------------------------------------

  datatype File = File(module_: Dotted, isPackage: bool, isTest: bool, isVerdict: bool, isMain: bool, tree: seq<Node>)

  function PackageOf(f: File): Dotted {
    if f.isPackage then f.module_
    else JoinParts(if f.module_ == [] then [] else f.module_[..|f.module_| - 1])
  }

  function FileDependencies(f: File): set<Dotted> {
    Dependencies(f.tree, PackageOf(f)) - {f.module_}
  }

  function EdgesOf(files: seq<File>): Edges<Dotted> {
    if files == [] then map[]
    else
      var edges := EdgesOf(files[..|files| - 1]);
      var f := files[|files| - 1];
      if f.isTest then edges else edges[f.module_ := FileDependencies(f)]
  }

  /** The last file outside the tests that has this module name. */
  ghost predicate LastFile(files: seq<File>, m: Dotted, i: int) {
    && 0 <= i < |files| && !files[i].isTest && files[i].module_ == m
    && forall j :: i < j < |files| ==> files[j].isTest || files[j].module_ != m
  }

  /** That file names `d`, another module, somewhere in its tree; relative names count from the
      package it is in. */
  ghost predicate NamesModule(f: File, d: Dotted) {
    d != f.module_ && SomeDepends(f.tree, if f.isPackage then f.module_ else ParentOf(f.module_), d)
  }

  /** The package of a module; that of a top-level module is the empty name. */
  function ParentOf(m: Dotted): Dotted {
    if |m| <= 1 then [""] else m[..|m| - 1]
  }

  ghost predicate EdgeTo(files: seq<File>, m: Dotted, d: Dotted) {
    exists i :: LastFile(files, m, i) && NamesModule(files[i], d)
  }

  lemma EdgeToStep(init: seq<File>, f: File, m: Dotted, d: Dotted)
    ensures EdgeTo(init + [f], m, d) <==>
              if !f.isTest && f.module_ == m then NamesModule(f, d) else EdgeTo(init, m, d)
  {
    var files, n := init + [f], |init|;
    assert files[n] == f && forall i :: 0 <= i < n ==> files[i] == init[i];
    if !f.isTest && f.module_ == m {
      assert LastFile(files, m, n);
      assert forall i :: LastFile(files, m, i) ==> i == n;
    } else {
      assert forall i :: LastFile(files, m, i) <==> LastFile(init, m, i);
    }
  }

  /** The edges that the worklist follows are exactly those. */
  lemma {:induction false} EdgesAre(files: seq<File>, m: Dotted, d: Dotted)
    ensures d in Targets(EdgesOf(files), m) <==> EdgeTo(files, m, d)
    decreases |files|
  {
    if files != [] {
      var init, f := files[..|files| - 1], files[|files| - 1];
      assert files == init + [f];
      EdgesAre(init, m, d);
      EdgeToStep(init, f, m, d);
      DependenciesAre(f.tree, PackageOf(f), d);
    }
  }

  function RootsOf(files: seq<File>): set<Dotted> {
    set f | f in files && IsRoot(f) :: f.module_
  }

  function EntryRoots(entryPoints: seq<Dotted>): set<Dotted> {
    set e, p | e in entryPoints && p in Prefixes(e) :: p
  }

  predicate IsRoot(f: File) {
    !f.isTest && (!f.isVerdict || f.isMain)
  }

  lemma RootsAppend(files: seq<File>, f: File)
    ensures RootsOf(files + [f]) == RootsOf(files) + if IsRoot(f) then {f.module_} else {}
  {
    assert forall g :: g in files + [f] <==> g in files || g == f;
  }

  lemma EntryRootsAppend(entryPoints: seq<Dotted>, e: Dotted)
    ensures EntryRoots(entryPoints + [e]) == EntryRoots(entryPoints) + Prefixes(e)
  {
    assert forall x :: x in entryPoints + [e] <==> x in entryPoints || x == e;
  }

  method BuildGraph(files: seq<File>, entryPoints: seq<Dotted>) returns (edges: Edges<Dotted>, roots: set<Dotted>)
    ensures edges == EdgesOf(files) && roots == RootsOf(files) + EntryRoots(entryPoints)
  {
    edges, roots := map[], {};
    for i := 0 to |files|
      invariant edges == EdgesOf(files[..i]) && roots == RootsOf(files[..i])
    {
      var f := files[i];
      assert files[..i + 1] == files[..i] + [f] && files[..i + 1][..i] == files[..i];
      RootsAppend(files[..i], f);
      if !f.isTest {
        edges := edges[f.module_ := FileDependencies(f)];
        if !f.isVerdict || f.isMain {
          roots := roots + {f.module_};
        }
      }
    }
    assert files[..|files|] == files;
    roots := AddEntryRoots(roots, entryPoints);
  }

  method AddEntryRoots(roots: set<Dotted>, entryPoints: seq<Dotted>) returns (all: set<Dotted>)
    ensures all == roots + EntryRoots(entryPoints)
  {
    all := roots;
    for i := 0 to |entryPoints|
      invariant all == roots + EntryRoots(entryPoints[..i])
    {
      assert entryPoints[..i + 1] == entryPoints[..i] + [entryPoints[i]];
      EntryRootsAppend(entryPoints[..i], entryPoints[i]);
      all := all + Prefixes(entryPoints[i]);
    }
    assert entryPoints[..|entryPoints|] == entryPoints;
  }

  ghost predicate IsOrphan(files: seq<File>, entryPoints: seq<Dotted>, f: File) {
    f.isVerdict && !Reachable(EdgesOf(files), RootsOf(files) + EntryRoots(entryPoints), f.module_)
  }

  /** The orphans among `listed`, in the same order. */
  ghost function OrphansAmong(listed: seq<File>, files: seq<File>, entryPoints: seq<Dotted>): seq<File> {
    if listed == [] then []
    else
      var last := listed[|listed| - 1];
      OrphansAmong(listed[..|listed| - 1], files, entryPoints)
      + if IsOrphan(files, entryPoints, last) then [last] else []
  }

  /** Where production starts: a file outside the tests and the verdict package, its main file,
      or an entry point with its parent packages. */
  ghost predicate StartsAt(files: seq<File>, entryPoints: seq<Dotted>, m: Dotted) {
    || (exists f :: f in files && !f.isTest && (!f.isVerdict || f.isMain) && f.module_ == m)
    || (exists e :: e in entryPoints && IsPrefixOf(m, e))
  }

  /** Modules each of which names the next. */
  ghost predicate ImportPath(files: seq<File>, p: seq<Dotted>) {
    p != [] && forall i :: 0 <= i < |p| - 1 ==> EdgeTo(files, p[i], p[i + 1])
  }

  /** Production gets to `m` through imports and module names. */
  ghost predicate GetsTo(files: seq<File>, entryPoints: seq<Dotted>, m: Dotted) {
    exists p :: ImportPath(files, p) && StartsAt(files, entryPoints, p[0]) && p[|p| - 1] == m
  }

  lemma RootsAre(files: seq<File>, entryPoints: seq<Dotted>, m: Dotted)
    ensures m in RootsOf(files) + EntryRoots(entryPoints) <==> StartsAt(files, entryPoints, m)
  {
    forall e | e in entryPoints ensures m in Prefixes(e) <==> IsPrefixOf(m, e) {
      PrefixesAre(e, m);
    }
  }

  lemma PathsAre(files: seq<File>, p: seq<Dotted>)
    ensures IsPath(EdgesOf(files), p) <==> ImportPath(files, p)
  {
    forall i | 0 <= i < |p| - 1 ensures p[i + 1] in Targets(EdgesOf(files), p[i]) <==> EdgeTo(files, p[i], p[i + 1]) {
      EdgesAre(files, p[i], p[i + 1]);
    }
  }

  lemma ReachableIsGetsTo(files: seq<File>, entryPoints: seq<Dotted>, m: Dotted)
    ensures Reachable(EdgesOf(files), RootsOf(files) + EntryRoots(entryPoints), m) <==> GetsTo(files, entryPoints, m)
  {
    var edges, roots := EdgesOf(files), RootsOf(files) + EntryRoots(entryPoints);
    if p :| IsPath(edges, p) && p[0] in roots && p[|p| - 1] == m {
      PathsAre(files, p);
      RootsAre(files, entryPoints, p[0]);
    }
    if p :| ImportPath(files, p) && StartsAt(files, entryPoints, p[0]) && p[|p| - 1] == m {
      PathsAre(files, p);
      RootsAre(files, entryPoints, p[0]);
    }
  }

  lemma OrphansAre(files: seq<File>, entryPoints: seq<Dotted>, f: File)
    ensures IsOrphan(files, entryPoints, f) <==> f.isVerdict && !GetsTo(files, entryPoints, f.module_)
  {
    ReachableIsGetsTo(files, entryPoints, f.module_);
  }

  /** `_orphan_modules`: exactly the verdict files that production does not get to, in file
      order. */
  method OrphanModules(files: seq<File>, entryPoints: seq<Dotted>) returns (orphans: seq<File>)
    ensures orphans == OrphansAmong(files, files, entryPoints)
    ensures forall f :: f in orphans <==>
              f in files && f.isVerdict && !GetsTo(files, entryPoints, f.module_)
  {
    var edges, roots := BuildGraph(files, entryPoints);
    var reached := Reach(edges, roots);
    orphans := [];
    for i := 0 to |files|
      invariant orphans == OrphansAmong(files[..i], files, entryPoints)
      invariant forall f :: f in orphans <==> f in files[..i] && IsOrphan(files, entryPoints, f)
    {
      assert files[..i + 1] == files[..i] + [files[i]];
      assert files[..i + 1][..i] == files[..i];
      if files[i].isVerdict && files[i].module_ !in reached {
        orphans := orphans + [files[i]];
      }
    }
    assert files[..|files|] == files;
    forall f ensures IsOrphan(files, entryPoints, f) <==> f.isVerdict && !GetsTo(files, entryPoints, f.module_) {
      OrphansAre(files, entryPoints, f);
    }
  }

  // --- Parent packages -------------------------------------------------------------------------

  ghost predicate PrefixClosed(names: set<Dotted>) {
    forall m, k :: m in names && 1 <= k <= |m| ==> m[..k] in names
  }

  lemma PrefixesAreClosed(name: Dotted)
    ensures PrefixClosed(Prefixes(name))
  {
    forall m, k | m in Prefixes(name) && 1 <= k <= |m| ensures m[..k] in Prefixes(name) {
      var i :| 1 <= i <= |name| && m == name[..i];
      assert m[..k] == name[..k];
    }
  }

  /** Import names in a from-import are single identifiers. */
  ghost predicate FromNamesAreSingle(node: Node) {
    node.ImportFrom? ==> forall a :: a in node.names ==> |a.name| == 1
  }

  lemma OwnDependenciesAreClosed(node: Node, package: Dotted)
    requires FromNamesAreSingle(node)
    ensures PrefixClosed(OwnDependencies(node, package))
  {
    match node
    case Import(names) =>
      forall m, k | m in OwnDependencies(node, package) && 1 <= k <= |m|
        ensures m[..k] in OwnDependencies(node, package)
      {
        var a :| a in names && m in Prefixes(a.name);
        PrefixesAreClosed(a.name);
      }
    case ImportFrom(_, names, _) =>
      var source := SourceOf(node, package);
      PrefixesAreClosed(source);
      forall m, k | m in OwnDependencies(node, package) && 1 <= k <= |m|
        ensures m[..k] in OwnDependencies(node, package)
      {
        if m !in Prefixes(source) {
          assert |m| == |source| + 1;
          if k < |m| {
            assert m[..k] == source[..k];
          } else {
            assert m[..k] == m;
          }
        }
      }
    case Constant(Some(text)) => PrefixesAreClosed(Split(Split(text, ':')[0], '.'));
    case _ =>
  }

  ghost predicate SingleNames(nodes: seq<Node>)
    decreases nodes
  {
    nodes == [] || (SingleNamesIn(nodes[0]) && SingleNames(nodes[1..]))
  }

  ghost predicate SingleNamesIn(node: Node)
    decreases node, 0
  {
    FromNamesAreSingle(node) &&
    match node
    case FunctionDef(_, header, body) => SingleNames(header) && SingleNames(body)
    case ClassDef(_, header, body) => SingleNames(header) && SingleNames(body)
    case Call(func, args, keywords) => SingleNamesIn(func) && SingleNames(args) && SingleNames(keywords)
    case Attribute(value, _) => SingleNamesIn(value)
    case Other(children) => SingleNames(children)
    case _ => true
  }

  lemma {:induction false} DependenciesAreClosed(nodes: seq<Node>, package: Dotted)
    requires SingleNames(nodes)
    ensures PrefixClosed(Dependencies(nodes, package))
    decreases nodes
  {
    if nodes != [] {
      NodeDependenciesAreClosed(nodes[0], package);
      DependenciesAreClosed(nodes[1..], package);
    }
  }

  lemma {:induction false} NodeDependenciesAreClosed(node: Node, package: Dotted)
    requires SingleNamesIn(node)
    ensures PrefixClosed(DependenciesOf(node, package))
    decreases node, 0
  {
    OwnDependenciesAreClosed(node, package);
    match node
    case FunctionDef(_, header, body) =>
      DependenciesAreClosed(header, package);
      DependenciesAreClosed(body, package);
    case ClassDef(_, header, body) =>
      DependenciesAreClosed(header, package);
      DependenciesAreClosed(body, package);
    case Call(func, args, keywords) =>
      NodeDependenciesAreClosed(func, package);
      DependenciesAreClosed(args, package);
      DependenciesAreClosed(keywords, package);
    case Attribute(value, _) => NodeDependenciesAreClosed(value, package);
    case Other(children) => DependenciesAreClosed(children, package);
    case _ =>
  }

  lemma {:induction false} EdgesComeFromFiles(files: seq<File>, m: Dotted) returns (f: File)
    requires m in EdgesOf(files)
    ensures f in files && f.module_ == m && EdgesOf(files)[m] == FileDependencies(f)
  {
    var last := files[|files| - 1];
    if !last.isTest && last.module_ == m {
      f := last;
    } else {
      f := EdgesComeFromFiles(files[..|files| - 1], m);
    }
  }

  /** Importing a module runs its packages: whatever is reached through an import, a module
      string or an entry point has all its parent packages reached as well. */
  lemma ParentPackagesAreReached(files: seq<File>, entryPoints: seq<Dotted>, n: Dotted, m: Dotted, k: nat)
    requires forall f :: f in files ==> SingleNames(f.tree)
    requires var (edges, roots) := (EdgesOf(files), RootsOf(files) + EntryRoots(entryPoints));
             (Reachable(edges, roots, n) && m in Targets(edges, n)) || m in EntryRoots(entryPoints)
    requires 1 <= k <= |m|
    ensures Reachable(EdgesOf(files), RootsOf(files) + EntryRoots(entryPoints), m[..k])
  {
    var edges, roots := EdgesOf(files), RootsOf(files) + EntryRoots(entryPoints);
    if m in EntryRoots(entryPoints) {
      var e :| e in entryPoints && m in Prefixes(e);
      PrefixesAreClosed(e);
      ReachableRoot(edges, roots, m[..k]);
    } else {
      var f := EdgesComeFromFiles(files, n);
      DependenciesAreClosed(f.tree, PackageOf(f));
      if m[..k] != n {
        ReachableStep(edges, roots, n, m[..k]);
      }
    }
  }
}
