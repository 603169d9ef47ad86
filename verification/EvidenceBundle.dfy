/** Deterministic, content-addressed evidence bundles (scripts/evidence_bundle.py). JSON
    and SHA-256 are parameters; the archive is its list of members. */
module EvidenceBundle {
  import opened Prelude

  const MANIFEST_NAME := "evidence_manifest.json"
  const SUFFIXES: seq<string> := [".json", ".md", ".txt", ".log", ".xml"]
  const ARCHIVE_ROOT := "evidence/"

  datatype Artifact = Artifact(path: string, size: int, sha256: string)

  datatype Manifest = Manifest(schemaVersion: int, artifacts: seq<Artifact>)

  datatype Codec = Codec(encode: Manifest -> Bytes, decode: Bytes -> Option<Manifest>, digest: Bytes -> string)

  /** Serialization can be read back, and digests look like SHA-256. */
  ghost predicate Faithful(codec: Codec) {
    && (forall m :: codec.decode(codec.encode(m)) == Some(m))
    && (forall b :: IsHex(codec.digest(b), 64, 64))
  }

  datatype Node = FileNode(content: Bytes) | DirNode | SymlinkNode

  /** Everything below the evidence directory, except the manifest at its root. */
  datatype Directory = Directory(nodes: map<string, Node>, manifest: Option<Bytes>)

  datatype Member = Member(name: string, isFile: bool, content: Bytes)

  // --- Paths --------------------------------------------------------------------------------

  /** `_safe_relative_path` returns its argument. The text "." passes too: it has no parts. */
  predicate SafePath(p: string) {
    && p != "" && '\\' !in p && p != MANIFEST_NAME
    && (p == "." || forall c :: c in Split(p, '/') ==> c != "" && c != "." && c != "..")
  }

  function Lower(s: string): string {
    seq(|s|, i requires 0 <= i < |s| => if 'A' <= s[i] <= 'Z' then (s[i] as int + 32) as char else s[i])
  }

  predicate AllowedSuffix(p: string) {
    LastPart(p, SuffixOk)
  }

  predicate LastPart(p: string, ok: string -> bool) {
    ok(Split(p, '/')[|Split(p, '/')| - 1])
  }

  predicate SuffixOk(name: string) {
    exists s :: s in SUFFIXES && |Lower(name)| > |s| && Lower(name)[|Lower(name)| - |s|..] == s
  }

  /** Capital letters count as their small ones. */
  predicate SameLetter(c: char, d: char) {
    c == d || ('A' <= c <= 'Z' && d as int == c as int + 32)
  }

  predicate EndsLike(name: string, suffix: string) {
    && |name| > |suffix|
    && forall i :: 0 <= i < |suffix| ==> SameLetter(name[|name| - |suffix| + i], suffix[i])
  }

  predicate HasSuffix(name: string) {
    exists s :: s in [".json", ".md", ".txt", ".log", ".xml"] && EndsLike(name, s)
  }

  /** A path that stays inside: plain names between slashes, the last of them with one of the
      five suffixes after a stem. */
  ghost predicate PlainPath(p: string, names: seq<string>) {
    PlainNames(p, names, HasSuffix)
  }

  predicate PlainNames(p: string, names: seq<string>, ok: string -> bool) {
    && names != [] && p == JoinWith(names, '/')
    && (forall n :: n in names ==> n != "" && n != "." && n != ".." && '/' !in n && '\\' !in n)
    && ok(names[|names| - 1])
  }

  lemma CheckedNames(p: string, ok: string -> bool)
    requires SafePath(p) && LastPart(p, ok) && p != "."
    ensures PlainNames(p, Split(p, '/'), ok)
  {
    SplitGivesPieces(p, '/');
    WithoutBackslash(p);
  }

  lemma NamesAreChecked(p: string, names: seq<string>, ok: string -> bool)
    requires PlainNames(p, names, ok) && p != MANIFEST_NAME
    ensures SafePath(p) && LastPart(p, ok)
  {
    SplitOfJoined(names, '/');
    JoinedWithoutBackslash(names);
    assert names[0] in names;
    SplitAfterFirst(names);
  }

  /** What the two path checks let through together: exactly the plain paths, except the
      manifest's own. */
  lemma PathsAre(p: string)
    ensures SafePath(p) && AllowedSuffix(p) <==> p != "evidence_manifest.json" && exists names :: PlainPath(p, names)
  {
    if SafePath(p) && AllowedSuffix(p) {
      CheckedPathIsPlain(p);
    }
    if names :| PlainPath(p, names) && p != "evidence_manifest.json" {
      PlainPathPasses(p, names);
    }
  }

  lemma CheckedPathIsPlain(p: string)
    requires SafePath(p) && AllowedSuffix(p)
    ensures PlainPath(p, Split(p, '/'))
  {
    NotDot(p);
    CheckedNames(p, SuffixOk);
    SuffixIsSpelledOut(p, Split(p, '/'));
  }

  lemma NotDot(p: string)
    requires AllowedSuffix(p)
    ensures p != "."
  {
    DotHasNoSuffix();
  }

  lemma SuffixIsSpelledOut(p: string, names: seq<string>)
    requires PlainNames(p, names, SuffixOk)
    ensures PlainPath(p, names)
  {
    SuffixIs(names[|names| - 1]);
  }

  lemma PlainPathPasses(p: string, names: seq<string>)
    requires PlainPath(p, names) && p != "evidence_manifest.json"
    ensures SafePath(p) && AllowedSuffix(p)
  {
    SuffixIs(names[|names| - 1]);
    NamesAreChecked(p, names, SuffixOk);
  }

  lemma SplitAfterFirst(names: seq<string>)
    requires names != [] && names[0] != ""
    ensures JoinWith(names, '/') != ""
  {
  }

  lemma {:induction false} WithoutBackslash(p: string)
    requires '\\' !in p
    ensures forall n :: n in Split(p, '/') ==> '\\' !in n
  {
    if p != "" { WithoutBackslash(p[1..]); }
  }

  lemma {:induction false} JoinedWithoutBackslash(names: seq<string>)
    requires forall n :: n in names ==> '\\' !in n
    ensures '\\' !in JoinWith(names, '/')
  {
    if |names| > 1 { JoinedWithoutBackslash(names[1..]); }
  }

  lemma DotHasNoSuffix()
    ensures !AllowedSuffix(".")
  {
    var dot := ".";
    assert dot[1..] == "" && Split(dot[1..], '/') == [""];
    assert [""][1..] == [] && [dot[0]] + "" == dot;
    assert Split(dot, '/') == [dot];
  }

  lemma LowerEndsLike(name: string, suffix: string)
    requires forall i :: 0 <= i < |suffix| ==> !('A' <= suffix[i] <= 'Z')
    ensures EndsLike(name, suffix) <==>
              |Lower(name)| > |suffix| && Lower(name)[|Lower(name)| - |suffix|..] == suffix
  {
    if |name| > |suffix| {
      var k := |name| - |suffix|;
      forall i | 0 <= i < |suffix| ensures Lower(name)[k..][i] == suffix[i] <==> SameLetter(name[k + i], suffix[i]) {
      }
      assert Lower(name)[k..] == suffix <==> forall i :: 0 <= i < |suffix| ==> Lower(name)[k..][i] == suffix[i];
    }
  }

  lemma SuffixIs(name: string)
    ensures SuffixOk(name) <==> HasSuffix(name)
  {
    forall s | s in SUFFIXES
      ensures EndsLike(name, s) <==> |Lower(name)| > |s| && Lower(name)[|Lower(name)| - |s|..] == s
    {
      SmallLetters(s);
      LowerEndsLike(name, s);
    }
  }

  lemma SmallLetters(s: string)
    requires s in SUFFIXES
    ensures forall i :: 0 <= i < |s| ==> !('A' <= s[i] <= 'Z')
  {
  }

  predicate GoodNode(p: string, n: Node) {
    n.DirNode? || (n.FileNode? && AllowedSuffix(p) && SafePath(p))
  }

  /** `_artifact_paths` raises nothing. */
  predicate Clean(dir: Directory) {
    forall p :: p in dir.nodes ==> GoodNode(p, dir.nodes[p])
  }

  function Files(dir: Directory): map<string, Bytes> {
    map p | p in dir.nodes && dir.nodes[p].FileNode? :: dir.nodes[p].content
  }

  // --- Canonical order ------------------------------------------------------------------------

  predicate Less(a: string, b: string) {
    b != "" && (a == "" || a[0] < b[0] || (a[0] == b[0] && Less(a[1..], b[1..])))
  }

  lemma {:induction false} LessIsTotal(a: string, b: string)
    ensures Less(a, b) || a == b || Less(b, a)
    ensures !(Less(a, b) && Less(b, a)) && !Less(a, a)
  {
    if a != "" {
      LessIsTotal(a[1..], a[1..]);
      if b != "" && a[0] == b[0] {
        LessIsTotal(a[1..], b[1..]);
        assert a[1..] == b[1..] ==> a == [a[0]] + a[1..] == b;
      }
    }
  }

  lemma {:induction false} LessIsTransitive(a: string, b: string, c: string)
    requires Less(a, b) && Less(b, c)
    ensures Less(a, c)
  {
    if a != "" && a[0] == b[0] == c[0] { LessIsTransitive(a[1..], b[1..], c[1..]); }
  }

  /** The order of texts: at the first place where they differ the smaller character comes
      first, and a text comes before its continuations. */
  ghost predicate DifferAt(a: string, b: string, i: int) {
    && 0 <= i <= |a| && i < |b| && a[..i] == b[..i]
    && (i < |a| ==> a[i] < b[i])
  }

  lemma {:induction false} LessIs(a: string, b: string)
    ensures Less(a, b) <==> exists i :: DifferAt(a, b, i)
  {
    if a != "" && b != "" && a[0] == b[0] {
      LessIs(a[1..], b[1..]);
      if i :| DifferAt(a[1..], b[1..], i) {
        assert a[..i + 1] == [a[0]] + a[1..][..i] && b[..i + 1] == [b[0]] + b[1..][..i];
        assert DifferAt(a, b, i + 1);
      }
      if i :| DifferAt(a, b, i) {
        assert i > 0;
        assert a[1..][..i - 1] == a[..i][1..] && b[1..][..i - 1] == b[..i][1..];
        assert DifferAt(a[1..], b[1..], i - 1);
      }
    } else if b != "" {
      assert a[..0] == b[..0];
      if Less(a, b) { assert DifferAt(a, b, 0); }
      forall i | 0 < i <= |a| && i < |b| ensures a[..i] != b[..i] {
        assert a[..i][0] == a[0] && b[..i][0] == b[0];
      }
    }
  }

  predicate Sorted(s: seq<Artifact>) {
    forall i, j :: 0 <= i < j < |s| ==> Less(s[i].path, s[j].path)
  }

  function Insert(s: seq<Artifact>, a: Artifact): seq<Artifact> {
    if s == [] || !Less(a.path, s[|s| - 1].path) then s + [a]
    else Insert(s[..|s| - 1], a) + [s[|s| - 1]]
  }

  function SortArtifacts(s: seq<Artifact>): seq<Artifact> {
    if s == [] then [] else Insert(SortArtifacts(s[..|s| - 1]), s[|s| - 1])
  }

  predicate DistinctPaths(s: seq<Artifact>) {
    forall i, j :: 0 <= i < j < |s| ==> s[i].path != s[j].path
  }

  lemma ElementsAppend(s: seq<Artifact>, a: Artifact)
    ensures Elements(s + [a]) == Elements(s) + {a}
  {
  }

  lemma SortedAppend(s: seq<Artifact>, a: Artifact)
    requires Sorted(s) && forall x :: x in s ==> Less(x.path, a.path)
    ensures Sorted(s + [a])
  {
    var t := s + [a];
    forall i, j | 0 <= i < j < |t| ensures Less(t[i].path, t[j].path) {
      assert t[i] == s[i] && s[i] in s;
    }
  }

  lemma LessThanLast(s: seq<Artifact>, a: Artifact)
    requires Sorted(s) && s != [] && Less(s[|s| - 1].path, a.path)
    ensures forall x :: x in s ==> Less(x.path, a.path)
  {
    forall x | x in s ensures Less(x.path, a.path) {
      LastIsGreatest(s, x);
      if x != s[|s| - 1] { LessIsTransitive(x.path, s[|s| - 1].path, a.path); }
    }
  }

  lemma SplitLast(s: seq<Artifact>) returns (init: seq<Artifact>, last: Artifact)
    requires s != [] && Sorted(s)
    ensures s == init + [last] && init == s[..|s| - 1] && last == s[|s| - 1]
    ensures Sorted(init) && Elements(s) == Elements(init) + {last}
    ensures forall x :: x in init ==> x in s && Less(x.path, last.path)
  {
    init, last := s[..|s| - 1], s[|s| - 1];
    ElementsAppend(init, last);
  }

  lemma {:induction false} InsertSorts(s: seq<Artifact>, a: Artifact)
    requires Sorted(s) && forall x :: x in s ==> x.path != a.path
    ensures Sorted(Insert(s, a)) && Elements(Insert(s, a)) == Elements(s) + {a}
  {
    if s == [] || !Less(a.path, s[|s| - 1].path) {
      if s != [] {
        LessIsTotal(a.path, s[|s| - 1].path);
        LessThanLast(s, a);
      }
      SortedAppend(s, a);
      ElementsAppend(s, a);
    } else {
      var init, last := SplitLast(s);
      InsertSorts(init, a);
      var ins := Insert(init, a);
      forall x | x in ins ensures Less(x.path, last.path) {
        assert x in Elements(ins);
      }
      SortedAppend(ins, last);
      ElementsAppend(ins, last);
    }
  }

  lemma {:induction false} SortingSorts(s: seq<Artifact>)
    requires DistinctPaths(s)
    ensures Sorted(SortArtifacts(s)) && Elements(SortArtifacts(s)) == Elements(s)
  {
    if s != [] {
      var init, last := s[..|s| - 1], s[|s| - 1];
      SortingSorts(init);
      forall x | x in SortArtifacts(init) ensures x.path != last.path {
        assert x in Elements(init);
        var i :| 0 <= i < |init| && init[i] == x;
        assert s[i] == x;
      }
      InsertSorts(SortArtifacts(init), last);
      assert Elements(s) == Elements(init) + {last};
    }
  }

  /** The last of a sorted list is the only element that nothing in it follows. */
  lemma LastIsGreatest(s: seq<Artifact>, x: Artifact)
    requires Sorted(s) && x in s
    ensures x == s[|s| - 1] || Less(x.path, s[|s| - 1].path)
  {
  }

  /** One set of records has one sorted listing. */
  lemma {:induction false} SortedIsUnique(a: seq<Artifact>, b: seq<Artifact>)
    requires Sorted(a) && Sorted(b) && Elements(a) == Elements(b)
    ensures a == b
    decreases |a|
  {
    if a == [] {
      if b != [] { HasElements(b); }
    } else {
      var x := a[|a| - 1];
      assert x in Elements(b);
      var y := b[|b| - 1];
      assert y in Elements(a);
      LastIsGreatest(a, y);
      LastIsGreatest(b, x);
      LessIsTotal(x.path, y.path);
      var initA, initB := a[..|a| - 1], b[..|b| - 1];
      ElementsWithoutLast(a);
      ElementsWithoutLast(b);
      SortedIsUnique(initA, initB);
      assert a == initA + [x] && b == initB + [y];
    }
  }

  lemma ElementsWithoutLast(s: seq<Artifact>)
    requires s != [] && Sorted(s)
    ensures Elements(s[..|s| - 1]) == Elements(s) - {s[|s| - 1]}
  {
    var init, last := s[..|s| - 1], s[|s| - 1];
    LessIsTotal(last.path, last.path);
    assert Elements(s) == Elements(init) + {last};
    assert last !in Elements(init);
  }

  // --- Manifests ------------------------------------------------------------------------------------

  predicate ValidArtifact(a: Artifact) {
    SafePath(a.path) && IsHex(a.sha256, 64, 64) && a.size >= 0
  }

  predicate ValidManifest(m: Manifest) {
    m.schemaVersion == 1 && DistinctPaths(m.artifacts) && forall a :: a in m.artifacts ==> ValidArtifact(a)
  }

  function Canonical(m: Manifest): Manifest {
    Manifest(1, SortArtifacts(m.artifacts))
  }

  /** `_validated_manifest`. */
  method ValidatedManifest(m: Manifest) returns (r: Option<Manifest>)
    ensures r == if ValidManifest(m) then Some(Canonical(m)) else None
  {
    if m.schemaVersion != 1 { return None; }
    var paths: set<string> := {};
    var validated: seq<Artifact> := [];
    for i := 0 to |m.artifacts|
      invariant forall k :: 0 <= k < i ==> ValidArtifact(m.artifacts[k])
      invariant forall j, k :: 0 <= j < k < i ==> m.artifacts[j].path != m.artifacts[k].path
      invariant forall p :: p in paths <==> exists k :: 0 <= k < i && m.artifacts[k].path == p
      invariant validated == m.artifacts[..i]
    {
      var a := m.artifacts[i];
      if !SafePath(a.path) || a.path in paths || !IsHex(a.sha256, 64, 64) || a.size < 0 {
        assert a in m.artifacts;
        return None;
      }
      paths := paths + {a.path};
      validated := validated + [a];
    }
    assert validated == m.artifacts;
    r := Some(Manifest(1, SortArtifacts(validated)));
  }

  /** Manifest bytes, and with them the bundle's name, depend only on the set of records. */
  lemma ManifestDependsOnlyOnRecords(a: Manifest, b: Manifest, codec: Codec)
    requires ValidManifest(a) && ValidManifest(b) && Elements(a.artifacts) == Elements(b.artifacts)
    ensures codec.encode(Canonical(a)) == codec.encode(Canonical(b))
    ensures codec.digest(codec.encode(Canonical(a))) == codec.digest(codec.encode(Canonical(b)))
  {
    SortingSorts(a.artifacts);
    SortingSorts(b.artifacts);
    SortedIsUnique(SortArtifacts(a.artifacts), SortArtifacts(b.artifacts));
  }

  function ArtifactFor(p: string, content: Bytes, codec: Codec): Artifact {
    Artifact(p, |content|, codec.digest(content))
  }

  /** `record` describes the file `content`. */
  predicate Matches(a: Artifact, content: Bytes, codec: Codec) {
    |content| == a.size && codec.digest(content) == a.sha256
  }

  /** The records of a directory. */
  function RecordsOf(dir: Directory, codec: Codec): set<Artifact> {
    set p | p in Files(dir) :: ArtifactFor(p, Files(dir)[p], codec)
  }

  /** `found` holds the records of the files among the first `i` listed names. */
  ghost predicate RecordsSoFar(found: seq<Artifact>, dir: Directory, listing: seq<string>, i: nat, codec: Codec) {
    && i <= |listing| && DistinctPaths(found)
    && (forall a :: a in found ==> ValidArtifact(a))
    && (forall a :: a in found ==> a in RecordsOf(dir, codec) && a.path in listing[..i])
    && (forall k :: 0 <= k < i && listing[k] in Files(dir) ==>
          ArtifactFor(listing[k], Files(dir)[listing[k]], codec) in found)
  }

  lemma RecordNext(found: seq<Artifact>, dir: Directory, listing: seq<string>, i: nat, codec: Codec)
    requires RecordsSoFar(found, dir, listing, i, codec) && i < |listing| && Distinct(listing)
    requires Faithful(codec) && listing[i] in dir.nodes && GoodNode(listing[i], dir.nodes[listing[i]])
    ensures var p := listing[i];
            RecordsSoFar(if p in Files(dir) then found + [ArtifactFor(p, Files(dir)[p], codec)] else found,
                         dir, listing, i + 1, codec)
  {
    var p, earlier := listing[i], listing[..i];
    assert listing[..i + 1] == earlier + [p];
    assert p !in earlier;
    if p in Files(dir) {
      var a := ArtifactFor(p, Files(dir)[p], codec);
      assert ValidArtifact(a) && a in RecordsOf(dir, codec);
      forall x | x in found ensures x.path != p {}
      assert DistinctPaths(found + [a]);
    }
  }

  /** `m` is a canonical manifest of exactly the files in the directory. */
  ghost predicate Catalogues(m: Manifest, dir: Directory, codec: Codec) {
    ValidManifest(m) && Sorted(m.artifacts) && Elements(m.artifacts) == RecordsOf(dir, codec)
  }

  /** A directory has at most one such manifest, so the listing order cannot matter. */
  lemma OneCatalogue(a: Manifest, b: Manifest, dir: Directory, codec: Codec)
    requires Catalogues(a, dir, codec) && Catalogues(b, dir, codec)
    ensures a == b
  {
    SortedIsUnique(a.artifacts, b.artifacts);
  }

  /** `collect_evidence`: refused exactly when something in the directory is not allowed;
      otherwise the one canonical manifest of its files, whatever order it is listed in. */
  method CollectEvidence(dir: Directory, listing: seq<string>, codec: Codec) returns (r: Option<Manifest>)
    requires Faithful(codec)
    requires Distinct(listing) && Elements(listing) == dir.nodes.Keys
    ensures r.Some? <==> Clean(dir)
    ensures r.Some? ==> Catalogues(r.value, dir, codec)
    ensures forall m :: Clean(dir) && Catalogues(m, dir, codec) ==> r == Some(m)
  {
    var ok, found := GatherRecords(dir, listing, codec);
    if !ok { return None; }
    var m := Manifest(1, SortArtifacts(found));
    CollectedIsCatalogue(found, dir, listing, codec);
    r := Some(m);
    forall other | Catalogues(other, dir, codec) ensures m == other {
      OneCatalogue(m, other, dir, codec);
    }
  }

  /** The loop over the listing: it stops at the first entry that is not allowed. */
  method GatherRecords(dir: Directory, listing: seq<string>, codec: Codec) returns (ok: bool, found: seq<Artifact>)
    requires Faithful(codec)
    requires Distinct(listing) && Elements(listing) == dir.nodes.Keys
    ensures ok <==> Clean(dir)
    ensures ok ==> RecordsSoFar(found, dir, listing, |listing|, codec)
  {
    found := [];
    for i := 0 to |listing|
      invariant forall k :: 0 <= k < i ==> GoodAt(dir, listing[k])
      invariant RecordsSoFar(found, dir, listing, i, codec)
    {
      var p := listing[i];
      assert p in Elements(listing);
      if !GoodNode(p, dir.nodes[p]) {
        assert p in dir.nodes;
        return false, found;
      }
      RecordNext(found, dir, listing, i, codec);
      if dir.nodes[p].FileNode? {
        found := found + [ArtifactFor(p, dir.nodes[p].content, codec)];
      }
    }
    AllGood(dir, listing);
    ok := true;
  }

  predicate GoodAt(dir: Directory, p: string) {
    p in dir.nodes && GoodNode(p, dir.nodes[p])
  }

  lemma AllGood(dir: Directory, listing: seq<string>)
    requires Elements(listing) == dir.nodes.Keys && forall k :: 0 <= k < |listing| ==> GoodAt(dir, listing[k])
    ensures Clean(dir)
  {
    forall p | p in dir.nodes ensures GoodNode(p, dir.nodes[p]) {
      assert p in Elements(listing);
      var k :| 0 <= k < |listing| && listing[k] == p;
      assert GoodAt(dir, listing[k]);
    }
  }

  lemma CollectedIsCatalogue(found: seq<Artifact>, dir: Directory, listing: seq<string>, codec: Codec)
    requires Elements(listing) == dir.nodes.Keys
    requires RecordsSoFar(found, dir, listing, |listing|, codec)
    ensures Catalogues(Manifest(1, SortArtifacts(found)), dir, codec)
  {
    ListedRecords(dir, listing, codec, found);
    SortingSorts(found);
    SortedIsValid(found);
  }

  lemma ListedRecords(dir: Directory, listing: seq<string>, codec: Codec, found: seq<Artifact>)
    requires Elements(listing) == dir.nodes.Keys
    requires RecordsSoFar(found, dir, listing, |listing|, codec)
    ensures Elements(found) == RecordsOf(dir, codec)
  {
    forall a | a in RecordsOf(dir, codec) ensures a in found {
      var p :| p in Files(dir) && a == ArtifactFor(p, Files(dir)[p], codec);
      assert p in Elements(listing);
      var k :| 0 <= k < |listing| && listing[k] == p;
    }
  }

  lemma SortedIsValid(found: seq<Artifact>)
    requires DistinctPaths(found) && forall a :: a in found ==> ValidArtifact(a)
    ensures ValidManifest(Manifest(1, SortArtifacts(found)))
  {
    SortingSorts(found);
    var s := SortArtifacts(found);
    forall i, j | 0 <= i < j < |s| ensures s[i].path != s[j].path {
      LessIsTotal(s[i].path, s[i].path);
    }
    forall a | a in s ensures ValidArtifact(a) {
      assert a in Elements(found);
    }
  }

  // --- Verification -----------------------------------------------------------------------------------

  /** `_load_manifest`: present, readable, valid and byte for byte canonical. */
  predicate Loads(dir: Directory, m: Manifest, codec: Codec) {
    && dir.manifest.Some?
    && codec.decode(dir.manifest.value).Some?
    && ValidManifest(codec.decode(dir.manifest.value).value)
    && m == Canonical(codec.decode(dir.manifest.value).value)
    && dir.manifest.value == codec.encode(m)
  }

  function ExpectedContent(m: Manifest): set<string> {
    {ARCHIVE_ROOT + MANIFEST_NAME} + set a | a in m.artifacts :: ARCHIVE_ROOT + a.path
  }

  /** The archive holds exactly the manifest and the listed files, each as recorded. */
  ghost predicate ArchiveMatches(archive: seq<Member>, m: Manifest, manifestBytes: Bytes, codec: Codec) {
    && (forall i, j :: 0 <= i < j < |archive| ==> archive[i].name != archive[j].name)
    && (set x | x in archive :: x.name) == ExpectedContent(m)
    && forall x :: x in archive ==> x.isFile && MemberMatches(x, m, manifestBytes, codec)
  }

  ghost predicate MemberMatches(x: Member, m: Manifest, manifestBytes: Bytes, codec: Codec) {
    && (x.name == ARCHIVE_ROOT + MANIFEST_NAME ==> x.content == manifestBytes)
    && (forall a :: a in m.artifacts && x.name == ARCHIVE_ROOT + a.path ==> Matches(a, x.content, codec))
  }

  /** The directory holds exactly the listed files, each as recorded. */
  ghost predicate DirectoryMatches(dir: Directory, m: Manifest, codec: Codec) {
    && Clean(dir)
    && Files(dir).Keys == (set a | a in m.artifacts :: a.path)
    && forall a :: a in m.artifacts ==> a.path in Files(dir) && Matches(a, Files(dir)[a.path], codec)
  }

  /** What acceptance by `verify_bundle` means. */
  ghost predicate Verified(dir: Directory, archive: Option<seq<Member>>, m: Manifest, codec: Codec) {
    && Loads(dir, m, codec)
    && DirectoryMatches(dir, m, codec)
    && (archive.Some? ==> ArchiveMatches(archive.value, m, dir.manifest.value, codec))
  }

  lemma ListedIsFile(dir: Directory, m: Manifest, codec: Codec, a: Artifact)
    requires DirectoryMatches(dir, m, codec) && a in m.artifacts
    ensures a.path in dir.nodes && dir.nodes[a.path].FileNode? && AllowedSuffix(a.path) && SafePath(a.path)
  {
    assert a.path in Files(dir);
    assert GoodNode(a.path, dir.nodes[a.path]);
  }

  /** The path "." passes `_safe_relative_path`, but it has no allowed suffix: no file can
      stand for it, so it never gets through verification. */
  lemma DotNeverVerifies(dir: Directory, archive: Option<seq<Member>>, m: Manifest, codec: Codec)
    ensures SafePath(".") && !AllowedSuffix(".")
    ensures Verified(dir, archive, m, codec) ==> forall a :: a in m.artifacts ==> a.path != "."
  {
    DotIsSafe();
    DotHasNoSuffix();
    if Verified(dir, archive, m, codec) {
      forall a | a in m.artifacts ensures a.path != "." {
        ListedIsNotDot(dir, m, codec, a);
      }
    }
  }

  lemma DotIsSafe()
    ensures SafePath(".")
  {
  }

  lemma ListedIsNotDot(dir: Directory, m: Manifest, codec: Codec, a: Artifact)
    requires DirectoryMatches(dir, m, codec) && a in m.artifacts
    ensures a.path != "."
  {
    ListedIsFile(dir, m, codec, a);
    NotDot(a.path);
  }

  /** Everything a verified manifest lists is a plain path inside the directory. */
  lemma VerifiedPathsArePlain(dir: Directory, archive: Option<seq<Member>>, m: Manifest, codec: Codec, a: Artifact)
    requires Verified(dir, archive, m, codec) && a in m.artifacts
    ensures a.path != "evidence_manifest.json" && exists names :: PlainPath(a.path, names)
    ensures a.path in dir.nodes && dir.nodes[a.path].FileNode?
    ensures |dir.nodes[a.path].content| == a.size && codec.digest(dir.nodes[a.path].content) == a.sha256
  {
    ListedIsFile(dir, m, codec, a);
    assert Files(dir)[a.path] == dir.nodes[a.path].content;
    PathsAre(a.path);
  }

  lemma CanonicalKeeps(m: Manifest)
    requires ValidManifest(m)
    ensures ValidManifest(Canonical(m)) && Elements(Canonical(m).artifacts) == Elements(m.artifacts)
  {
    SortingSorts(m.artifacts);
    SortedIsValid(m.artifacts);
  }

  /** `_verify_archive`. */
  method VerifyArchive(archive: seq<Member>, m: Manifest, manifestBytes: Bytes, codec: Codec) returns (ok: bool)
    requires ValidManifest(m)
    ensures ok <==> ArchiveMatches(archive, m, manifestBytes, codec)
  {
    var names := set x | x in archive :: x.name;
    var seen: set<string> := {};
    for i := 0 to |archive|
      invariant seen == set k | 0 <= k < i :: archive[k].name
      invariant forall j, k :: 0 <= j < k < i ==> archive[j].name != archive[k].name
    {
      if archive[i].name in seen { return false; }
      seen := seen + {archive[i].name};
    }
    if names != ExpectedContent(m) { return false; }
    for i := 0 to |archive|
      invariant forall k :: 0 <= k < i ==> archive[k].isFile && MemberMatches(archive[k], m, manifestBytes, codec)
    {
      var x := archive[i];
      assert x in archive;
      var good := CheckMember(x, m, manifestBytes, codec);
      if !good { return false; }
    }
    ok := true;
  }

  method CheckMember(x: Member, m: Manifest, manifestBytes: Bytes, codec: Codec) returns (ok: bool)
    requires ValidManifest(m) && x.name in ExpectedContent(m)
    ensures ok <==> x.isFile && MemberMatches(x, m, manifestBytes, codec)
  {
    if !x.isFile { return false; }
    if x.name == ARCHIVE_ROOT + MANIFEST_NAME {
      forall a | a in m.artifacts ensures x.name != ARCHIVE_ROOT + a.path {
        SameTail(ARCHIVE_ROOT, MANIFEST_NAME, a.path);
      }
      return x.content == manifestBytes;
    }
    for i := 0 to |m.artifacts|
      invariant forall k :: 0 <= k < i ==> x.name != ARCHIVE_ROOT + m.artifacts[k].path
    {
      var a := m.artifacts[i];
      if x.name == ARCHIVE_ROOT + a.path {
        forall b | b in m.artifacts && x.name == ARCHIVE_ROOT + b.path ensures b == a {
          SameTail(ARCHIVE_ROOT, a.path, b.path);
          var k :| 0 <= k < |m.artifacts| && m.artifacts[k] == b;
        }
        return Matches(a, x.content, codec);
      }
    }
    assert false;
    ok := false;
  }

  lemma SameTail(root: string, a: string, b: string)
    ensures root + a == root + b <==> a == b
  {
    assert (root + a)[|root|..] == a && (root + b)[|root|..] == b;
  }

  /** The part of `verify_bundle` that looks at the directory. */
  method VerifyFiles(dir: Directory, m: Manifest, codec: Codec) returns (ok: bool)
    ensures ok <==> DirectoryMatches(dir, m, codec)
  {
    var records := VerifyRecords(Files(dir), m.artifacts, codec);
    ok := Clean(dir) && records;
  }

  method VerifyRecords(files: map<string, Bytes>, artifacts: seq<Artifact>, codec: Codec) returns (ok: bool)
    ensures ok <==>
              && files.Keys == (set a | a in artifacts :: a.path)
              && forall a :: a in artifacts ==> a.path in files && Matches(a, files[a.path], codec)
  {
    if files.Keys != (set a | a in artifacts :: a.path) { return false; }
    for i := 0 to |artifacts|
      invariant forall k :: 0 <= k < i ==>
                  artifacts[k].path in files && Matches(artifacts[k], files[artifacts[k].path], codec)
    {
      var a := artifacts[i];
      assert a in artifacts;
      assert a.path in files.Keys;
      if !Matches(a, files[a.path], codec) { return false; }
    }
    ok := true;
  }

  /** `verify_bundle` accepts exactly when manifest, directory and archive agree. */
  method VerifyBundle(dir: Directory, archive: Option<seq<Member>>, codec: Codec) returns (r: Option<Manifest>)
    ensures r.Some? ==> Verified(dir, archive, r.value, codec)
    ensures r.None? ==> forall m :: !Verified(dir, archive, m, codec)
  {
    if dir.manifest.None? { return None; }
    var decoded := codec.decode(dir.manifest.value);
    if decoded.None? { return None; }
    var validated := ValidatedManifest(decoded.value);
    if validated.None? || dir.manifest.value != codec.encode(validated.value) { return None; }
    var m := validated.value;
    CanonicalKeeps(decoded.value);
    var files := VerifyFiles(dir, m, codec);
    if !files { return None; }
    if archive.Some? {
      var ok := VerifyArchive(archive.value, m, dir.manifest.value, codec);
      if !ok { return None; }
    }
    r := Some(m);
  }

  // --- Creation -----------------------------------------------------------------------------------------

  function MembersFor(artifacts: seq<Artifact>, files: map<string, Bytes>): seq<Member>
    requires forall a :: a in artifacts ==> a.path in files
  {
    seq(|artifacts|, i requires 0 <= i < |artifacts| =>
      Member(ARCHIVE_ROOT + artifacts[i].path, true, files[artifacts[i].path]))
  }

  function ArchiveFor(m: Manifest, files: map<string, Bytes>, codec: Codec): seq<Member>
    requires forall a :: a in m.artifacts ==> a.path in files
  {
    [Member(ARCHIVE_ROOT + MANIFEST_NAME, true, codec.encode(m))] + MembersFor(m.artifacts, files)
  }

  datatype Created = Created(dir: Directory, name: string, archive: seq<Member>)

  /** `create_bundle`: writes the canonical manifest and the archive, then verifies both. */
  method CreateBundle(evidence: Manifest, dir: Directory, codec: Codec) returns (r: Option<Created>)
    ensures r.Some? ==>
              && ValidManifest(evidence)
              && r.value.dir == dir.(manifest := Some(codec.encode(Canonical(evidence))))
              && r.value.name == "verdict-evidence-" + codec.digest(codec.encode(Canonical(evidence))) + ".tar.gz"
              && exists m :: Verified(r.value.dir, Some(r.value.archive), m, codec)
    ensures (&& Faithful(codec) && Clean(dir) && ValidManifest(evidence)
             && Elements(evidence.artifacts) == RecordsOf(dir, codec)) ==> r.Some?
  {
    var validated := ValidatedManifest(evidence);
    if validated.None? { return None; }
    var m := validated.value;
    var written := dir.(manifest := Some(codec.encode(m)));
    CanonicalKeeps(evidence);
    if exists a :: a in m.artifacts && a.path !in Files(dir) {
      if Elements(evidence.artifacts) == RecordsOf(dir, codec) {
        RecordedPathsExist(m, dir, codec);
      }
      return None;
    }
    var archive := ArchiveFor(m, Files(dir), codec);
    assert Files(written) == Files(dir);
    if Faithful(codec) && Clean(dir) && Elements(evidence.artifacts) == RecordsOf(dir, codec) {
      FreshBundleVerifies(evidence, dir, codec);
    }
    var verified := VerifyBundle(written, Some(archive), codec);
    if verified.None? { return None; }
    r := Some(Created(written, "verdict-evidence-" + codec.digest(codec.encode(m)) + ".tar.gz", archive));
  }

  /** The whole round trip: collecting, creating and verifying succeeds exactly on the
      directories that hold nothing but allowed files. */
  method CollectCreateVerify(dir: Directory, listing: seq<string>, codec: Codec) returns (ok: bool)
    requires Faithful(codec)
    requires Distinct(listing) && Elements(listing) == dir.nodes.Keys
    ensures ok <==> Clean(dir)
  {
    var evidence := CollectEvidence(dir, listing, codec);
    if evidence.None? { return false; }
    var created := CreateBundle(evidence.value, dir, codec);
    if created.None? { return false; }
    var verified := VerifyBundle(created.value.dir, Some(created.value.archive), codec);
    ok := verified.Some?;
  }

  lemma RecordedPathsExist(m: Manifest, dir: Directory, codec: Codec)
    requires Elements(m.artifacts) == RecordsOf(dir, codec)
    ensures forall a :: a in m.artifacts ==> a.path in Files(dir) && a == ArtifactFor(a.path, Files(dir)[a.path], codec)
    ensures Files(dir).Keys == (set a | a in m.artifacts :: a.path)
  {
    forall a | a in m.artifacts
      ensures a.path in Files(dir) && a == ArtifactFor(a.path, Files(dir)[a.path], codec)
    {
      assert a in Elements(m.artifacts);
    }
    forall p | p in Files(dir) ensures p in (set a | a in m.artifacts :: a.path) {
      assert ArtifactFor(p, Files(dir)[p], codec) in Elements(m.artifacts);
    }
  }

  lemma {:induction false} CanonicalTwice(m: Manifest)
    requires ValidManifest(m)
    ensures Canonical(Canonical(m)) == Canonical(m)
  {
    CanonicalKeeps(m);
    SortingSorts(m.artifacts);
    var s := Canonical(m).artifacts;
    SortingSorts(s);
    SortedIsUnique(SortArtifacts(s), s);
  }

  lemma FreshArchiveMatches(m: Manifest, files: map<string, Bytes>, codec: Codec)
    requires ValidManifest(m)
    requires forall a :: a in m.artifacts ==> a.path in files && Matches(a, files[a.path], codec)
    ensures ArchiveMatches(ArchiveFor(m, files, codec), m, codec.encode(m), codec)
  {
    var archive := ArchiveFor(m, files, codec);
    forall i | 1 <= i < |archive|
      ensures archive[i] == Member(ARCHIVE_ROOT + m.artifacts[i - 1].path, true, files[m.artifacts[i - 1].path])
              && m.artifacts[i - 1] in m.artifacts
    {
    }
    forall i, j | 0 <= i < j < |archive| ensures archive[i].name != archive[j].name {
      var b := m.artifacts[j - 1];
      SameTail(ARCHIVE_ROOT, if i == 0 then MANIFEST_NAME else m.artifacts[i - 1].path, b.path);
    }
    forall x | x in archive
      ensures x.isFile && MemberMatches(x, m, codec.encode(m), codec) && x.name in ExpectedContent(m)
    {
      var i :| 0 <= i < |archive| && archive[i] == x;
      forall a | a in m.artifacts && x.name == ARCHIVE_ROOT + a.path ensures Matches(a, x.content, codec) {
        SameTail(ARCHIVE_ROOT, if i == 0 then MANIFEST_NAME else m.artifacts[i - 1].path, a.path);
      }
      if i > 0 {
        SameTail(ARCHIVE_ROOT, MANIFEST_NAME, m.artifacts[i - 1].path);
      }
    }
    forall n | n in ExpectedContent(m) ensures n in (set x | x in archive :: x.name) {
      if n == ARCHIVE_ROOT + MANIFEST_NAME {
        assert archive[0] in archive;
      } else {
        var a :| a in m.artifacts && n == ARCHIVE_ROOT + a.path;
        var k :| 0 <= k < |m.artifacts| && m.artifacts[k] == a;
        assert archive[k + 1] in archive;
      }
    }
  }

  /** The round trip: records collected from an unchanged directory always create a bundle
      that verifies, on disk and in the archive. */
  lemma FreshBundleVerifies(evidence: Manifest, dir: Directory, codec: Codec)
    requires Faithful(codec) && Clean(dir) && ValidManifest(evidence)
    requires Elements(evidence.artifacts) == RecordsOf(dir, codec)
    ensures var m := Canonical(evidence);
            && (forall a :: a in m.artifacts ==> a.path in Files(dir))
            && Verified(dir.(manifest := Some(codec.encode(m))), Some(ArchiveFor(m, Files(dir), codec)), m, codec)
  {
    var m := Canonical(evidence);
    var written := dir.(manifest := Some(codec.encode(m)));
    CanonicalKeeps(evidence);
    CanonicalTwice(evidence);
    RecordedPathsExist(m, dir, codec);
    assert Files(written) == Files(dir);
    assert codec.decode(codec.encode(m)) == Some(m);
    FreshArchiveMatches(m, Files(dir), codec);
  }

  ghost predicate NoCollision(codec: Codec, x: Bytes, y: Bytes) {
    codec.digest(x) == codec.digest(y) ==> x == y
  }

  /** No two different contents that the two directories hold under one name collide. */
  ghost predicate NoFileCollides(a: Directory, b: Directory, codec: Codec) {
    forall p :: p in Files(a) && p in Files(b) ==> NoCollision(codec, Files(a)[p], Files(b)[p])
  }

  lemma LoadedAlike(a: Directory, b: Directory, ma: Manifest, mb: Manifest, codec: Codec)
    requires Faithful(codec) && Loads(a, ma, codec) && Loads(b, mb, codec)
    requires NoCollision(codec, a.manifest.value, b.manifest.value)
    requires codec.digest(a.manifest.value) == codec.digest(b.manifest.value)
    ensures ma == mb
  {
    assert codec.decode(codec.encode(ma)) == Some(ma) && codec.decode(codec.encode(mb)) == Some(mb);
  }

  lemma MatchAlike(a: Directory, b: Directory, m: Manifest, codec: Codec, p: string)
    requires NoFileCollides(a, b, codec)
    requires DirectoryMatches(a, m, codec) && DirectoryMatches(b, m, codec)
    requires p in Files(a)
    ensures p in Files(b) && Files(a)[p] == Files(b)[p]
  {
    assert p in Files(a).Keys;
    var r :| r in m.artifacts && r.path == p;
    assert r.path in Files(b);
    assert NoCollision(codec, Files(a)[p], Files(b)[p]);
  }

  lemma FilesAlike(a: Directory, b: Directory, m: Manifest, codec: Codec)
    requires NoFileCollides(a, b, codec)
    requires DirectoryMatches(a, m, codec) && DirectoryMatches(b, m, codec)
    ensures Files(a) == Files(b)
  {
    var fa, fb := Files(a), Files(b);
    assert fa.Keys == fb.Keys;
    forall p | p in fa ensures p in fb && fa[p] == fb[p] {
      MatchAlike(a, b, m, codec, p);
    }
    assert fa == fb;
  }

  /** Verified directories with the same files have the same manifest, byte for byte. */
  lemma EqualFilesEqualManifests(a: Directory, b: Directory, ma: Manifest, mb: Manifest, codec: Codec)
    requires Verified(a, None, ma, codec) && Verified(b, None, mb, codec) && Files(a) == Files(b)
    ensures ma == mb && a.manifest == b.manifest
  {
    ManifestOfFiles(a, ma, codec);
    ManifestOfFiles(b, mb, codec);
    assert RecordsOf(a, codec) == RecordsOf(b, codec);
    SortedIsUnique(ma.artifacts, mb.artifacts);
  }

  /** Content addressing: if neither the two manifests nor two files of one name collide,
      two verified directories have the same bundle name exactly when they hold the very
      same files. */
  lemma VerifiedDirectoriesAgree(a: Directory, b: Directory, ma: Manifest, mb: Manifest, codec: Codec)
    requires Faithful(codec)
    requires Verified(a, None, ma, codec) && Verified(b, None, mb, codec)
    requires NoCollision(codec, a.manifest.value, b.manifest.value) && NoFileCollides(a, b, codec)
    ensures codec.digest(a.manifest.value) == codec.digest(b.manifest.value) <==> Files(a) == Files(b)
  {
    if codec.digest(a.manifest.value) == codec.digest(b.manifest.value) {
      LoadedAlike(a, b, ma, mb, codec);
      FilesAlike(a, b, ma, codec);
    }
    if Files(a) == Files(b) {
      EqualFilesEqualManifests(a, b, ma, mb, codec);
    }
  }

  /** A verified manifest is the catalogue of its directory. */
  lemma ManifestOfFiles(dir: Directory, m: Manifest, codec: Codec)
    requires Loads(dir, m, codec) && DirectoryMatches(dir, m, codec)
    ensures Catalogues(m, dir, codec)
  {
    var decoded := codec.decode(dir.manifest.value).value;
    CanonicalKeeps(decoded);
    SortingSorts(decoded.artifacts);
    forall a ensures a in Elements(m.artifacts) <==> a in RecordsOf(dir, codec) {
      if a in m.artifacts {
        assert a.path in Files(dir) && a == ArtifactFor(a.path, Files(dir)[a.path], codec);
      }
      if a in RecordsOf(dir, codec) {
        var p :| p in Files(dir) && a == ArtifactFor(p, Files(dir)[p], codec);
        assert p in Files(dir).Keys;
        var r :| r in m.artifacts && r.path == p;
        assert Matches(r, Files(dir)[p], codec);
        assert a == r;
      }
    }
  }
}
