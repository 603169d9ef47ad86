/** Redaction of host paths in a recorded terminal session
    (scripts/record_home_prompt.py `sanitize_chunks`). */
module Redaction {
  import opened Prelude

  const DOT: Byte := 46
  const TILDE: Byte := 126

  datatype Chunk = Chunk(at: real, data: Bytes)

  /** Replace `path` by the single byte `marker`. */
  datatype Swap = Swap(path: Bytes, marker: Byte)

  predicate WellFormed(swaps: seq<Swap>) {
    forall w :: w in swaps ==> w.path != []
  }

  // --- Which swaps, in which order --------------------------------------------------------

  function EncodeAll(s: string, encode: char -> Bytes): Bytes {
    if s == "" then [] else encode(s[0]) + EncodeAll(s[1..], encode)
  }

  /** What section 3 of RFC 3629 guarantees of UTF-8: no character's bytes begin another's. */
  ghost predicate PrefixCode(encode: char -> Bytes) {
    (forall c :: encode(c) != []) && (forall c, d :: encode(c) <= encode(d) ==> c == d)
  }

  function SwapFor(path: string, marker: Byte, encode: char -> Bytes): seq<Swap> {
    if path == "" || path == "/" then [] else [Swap(EncodeAll(path, encode), marker)]
  }

  /** Longest path first, measured in characters; a tie falls either way (`cwdFirst`),
      since the source sorts a set. */
  function MakeSwaps(cwd: string, home: string, encode: char -> Bytes, cwdFirst: bool): seq<Swap> {
    if |cwd| > |home| || (|cwd| == |home| && cwdFirst)
    then SwapFor(cwd, DOT, encode) + SwapFor(home, TILDE, encode)
    else SwapFor(home, TILDE, encode) + SwapFor(cwd, DOT, encode)
  }

  /** Byte prefixes of encoded text are character prefixes. */
  lemma {:induction false} EncodedPrefix(a: string, b: string, encode: char -> Bytes)
    requires PrefixCode(encode) && EncodeAll(a, encode) <= EncodeAll(b, encode)
    ensures a <= b
  {
    if a != "" {
      var ea, eb := encode(a[0]), EncodeAll(b, encode);
      assert ea <= EncodeAll(a, encode) <= eb;
      var ed := encode(b[0]);
      assert ed <= eb;
      assert ea <= ed || ed <= ea;
      assert EncodeAll(a[1..], encode) == EncodeAll(a, encode)[|ea|..];
      assert EncodeAll(b[1..], encode) == eb[|ed|..];
      EncodedPrefix(a[1..], b[1..], encode);
    }
  }

  function FirstMatch(swaps: seq<Swap>, s: Bytes): Option<Swap> {
    if swaps == [] then None
    else if swaps[0].path <= s then Some(swaps[0])
    else FirstMatch(swaps[1..], s)
  }

  lemma {:induction false} FirstMatchIsAMatch(swaps: seq<Swap>, s: Bytes)
    ensures FirstMatch(swaps, s).Some? ==> FirstMatch(swaps, s).value in swaps && FirstMatch(swaps, s).value.path <= s
    ensures FirstMatch(swaps, s).None? ==> forall w :: w in swaps ==> !(w.path <= s)
  {
    if swaps != [] { FirstMatchIsAMatch(swaps[1..], s); }
  }

  /** Of two paths whose bytes both start a stream, the one with more characters has at
      least as many bytes. */
  lemma MoreCharactersMoreBytes(a: string, b: string, encode: char -> Bytes, s: Bytes)
    requires PrefixCode(encode) && |a| >= |b|
    requires EncodeAll(a, encode) <= s && EncodeAll(b, encode) <= s
    ensures |EncodeAll(a, encode)| >= |EncodeAll(b, encode)|
  {
    if |EncodeAll(a, encode)| <= |EncodeAll(b, encode)| {
      EncodedPrefix(a, b, encode);
      assert a == b;
    }
  }

  /** Trying the paths in the order of their character counts finds the longest byte match,
      and every usable path is tried. */
  lemma OrderGivesLongestMatch(cwd: string, home: string, encode: char -> Bytes, cwdFirst: bool, s: Bytes, w: Swap)
    requires PrefixCode(encode)
    requires w in SwapFor(cwd, DOT, encode) + SwapFor(home, TILDE, encode) && w.path <= s
    ensures var swaps := MakeSwaps(cwd, home, encode, cwdFirst);
            && w in swaps
            && FirstMatch(swaps, s).Some? && |w.path| <= |FirstMatch(swaps, s).value.path|
  {
    var swaps := MakeSwaps(cwd, home, encode, cwdFirst);
    FirstMatchIsAMatch(swaps, s);
    if |swaps| == 2 && swaps[0].path <= s && w == swaps[1] {
      if swaps[0].marker == DOT {
        MoreCharactersMoreBytes(cwd, home, encode, s);
      } else {
        MoreCharactersMoreBytes(home, cwd, encode, s);
      }
    }
  }

  // --- The simple form --------------------------------------------------------------------

  /** Leftmost, first-in-order replacement over the whole stream. */
  function Redact(s: Bytes, swaps: seq<Swap>): Bytes
    decreases |s|
  {
    if s == [] then []
    else match FirstMatch(swaps, s)
      case None => [s[0]] + Redact(s[1..], swaps)
      case Some(w) =>
        if 0 < |w.path| <= |s| then [w.marker] + Redact(s[|w.path|..], swaps)
        else []  // excluded by WellFormed
  }

  function Join(chunks: seq<Chunk>): Bytes {
    if chunks == [] then [] else Join(chunks[..|chunks| - 1]) + chunks[|chunks| - 1].data
  }

  /** The index of the chunk each byte of the joined stream came from. */
  function Owners(chunks: seq<Chunk>): seq<nat> {
    if chunks == [] then []
    else Owners(chunks[..|chunks| - 1]) + seq(|chunks[|chunks| - 1].data|, _ => |chunks| - 1)
  }

  /** What the scan emits for the input piece that begins at `start`. */
  datatype Token = Token(start: nat, out: Byte)

  function TokenAt(s: Bytes, swaps: seq<Swap>, pos: nat): Token
    requires pos < |s|
  {
    var found := FirstMatch(swaps, s[pos..]);
    Token(pos, if found.Some? then found.value.marker else s[pos])
  }

  function NextPos(s: Bytes, swaps: seq<Swap>, pos: nat): nat
    requires pos < |s|
  {
    var found := FirstMatch(swaps, s[pos..]);
    pos + if found.Some? then |found.value.path| else 1
  }

  function Tokens(s: Bytes, swaps: seq<Swap>, pos: nat): seq<Token>
    decreases |s| - pos
  {
    if pos >= |s| || NextPos(s, swaps, pos) == pos then []  // WellFormed excludes the latter
    else [TokenAt(s, swaps, pos)] + Tokens(s, swaps, NextPos(s, swaps, pos))
  }

  lemma NextFits(s: Bytes, swaps: seq<Swap>, pos: nat)
    requires WellFormed(swaps) && pos < |s|
    ensures pos < NextPos(s, swaps, pos) <= |s|
  {
    FirstMatchIsAMatch(swaps, s[pos..]);
  }

  /** The output bytes of the tokens that begin in chunk `i`. */
  function PartOf(ts: seq<Token>, owners: seq<nat>, i: nat): Bytes
    requires forall t :: t in ts ==> t.start < |owners|
  {
    if ts == [] then []
    else
      var last := ts[|ts| - 1];
      PartOf(ts[..|ts| - 1], owners, i) + if owners[last.start] == i then [last.out] else []
  }

  function Outputs(ts: seq<Token>): Bytes {
    seq(|ts|, i requires 0 <= i < |ts| => ts[i].out)
  }

  ghost predicate Ascending(ts: seq<Token>, n: nat) {
    && (forall t :: t in ts ==> t.start < n)
    && (forall i, j :: 0 <= i < j < |ts| ==> ts[i].start < ts[j].start)
  }

  ghost predicate Monotone(owners: seq<nat>, n: nat) {
    && (forall p :: 0 <= p < |owners| ==> owners[p] < n)
    && (forall p, q :: 0 <= p <= q < |owners| ==> owners[p] <= owners[q])
  }

  lemma {:induction false} OwnersFit(chunks: seq<Chunk>)
    ensures |Owners(chunks)| == |Join(chunks)| && Monotone(Owners(chunks), |chunks|)
  {
    if chunks != [] {
      OwnersFit(chunks[..|chunks| - 1]);
    }
  }

  lemma AscendingFrom(t: Token, rest: seq<Token>, n: nat)
    requires t.start < n && Ascending(rest, n) && forall x :: x in rest ==> t.start < x.start
    ensures Ascending([t] + rest, n)
  {
    var ts := [t] + rest;
    forall i, j | 0 <= i < j < |ts| ensures ts[i].start < ts[j].start {
      assert ts[j] == rest[j - 1] && rest[j - 1] in rest;
    }
  }

  lemma {:induction false} TokensAscend(s: Bytes, swaps: seq<Swap>, pos: nat)
    requires WellFormed(swaps)
    ensures Ascending(Tokens(s, swaps, pos), |s|)
    ensures forall t :: t in Tokens(s, swaps, pos) ==> pos <= t.start
    decreases |s| - pos
  {
    if pos < |s| {
      var next := NextPos(s, swaps, pos);
      NextFits(s, swaps, pos);
      TokensAscend(s, swaps, next);
      AscendingFrom(TokenAt(s, swaps, pos), Tokens(s, swaps, next), |s|);
    }
  }

  lemma RedactStep(s: Bytes, swaps: seq<Swap>, pos: nat)
    requires WellFormed(swaps) && pos < |s|
    ensures pos < NextPos(s, swaps, pos) <= |s|
    ensures Redact(s[pos..], swaps) == [TokenAt(s, swaps, pos).out] + Redact(s[NextPos(s, swaps, pos)..], swaps)
  {
    FirstMatchIsAMatch(swaps, s[pos..]);
    var next := NextPos(s, swaps, pos);
    assert s[pos..][next - pos..] == s[next..];
  }

  lemma {:induction false} TokensSpellRedaction(s: Bytes, swaps: seq<Swap>, pos: nat)
    requires WellFormed(swaps) && pos <= |s|
    ensures Outputs(Tokens(s, swaps, pos)) == Redact(s[pos..], swaps)
    decreases |s| - pos
  {
    if pos < |s| {
      var next := NextPos(s, swaps, pos);
      RedactStep(s, swaps, pos);
      TokensSpellRedaction(s, swaps, next);
      OutputsFrom(TokenAt(s, swaps, pos), Tokens(s, swaps, next));
    }
  }

  lemma OutputsFrom(t: Token, rest: seq<Token>)
    ensures Outputs([t] + rest) == [t.out] + Outputs(rest)
  {
  }

  // --- Putting the parts back together ------------------------------------------------------

  function JoinParts(ts: seq<Token>, owners: seq<nat>, n: nat): Bytes
    requires forall t :: t in ts ==> t.start < |owners|
  {
    if n == 0 then [] else JoinParts(ts, owners, n - 1) + PartOf(ts, owners, n - 1)
  }

  ghost predicate InOrder(ts: seq<Token>, owners: seq<nat>) {
    && (forall t :: t in ts ==> t.start < |owners|)
    && (forall i, j :: 0 <= i <= j < |ts| ==> owners[ts[i].start] <= owners[ts[j].start])
  }

  lemma {:induction false} NoPart(ts: seq<Token>, owners: seq<nat>, i: nat)
    requires forall t :: t in ts ==> t.start < |owners| && owners[t.start] != i
    ensures PartOf(ts, owners, i) == []
  {
    if ts != [] { NoPart(ts[..|ts| - 1], owners, i); }
  }

  lemma {:induction false} JoinNothing(owners: seq<nat>, n: nat)
    ensures JoinParts([], owners, n) == []
  {
    if n > 0 { JoinNothing(owners, n - 1); }
  }

  lemma PartOfAppend(ts: seq<Token>, t: Token, owners: seq<nat>, i: nat)
    requires t.start < |owners| && forall x :: x in ts ==> x.start < |owners|
    ensures PartOf(ts + [t], owners, i) == PartOf(ts, owners, i) + if owners[t.start] == i then [t.out] else []
  {
    assert (ts + [t])[..|ts|] == ts;
  }

  /** Adding a token at the end of the stream adds its byte at the end of the joined parts. */
  lemma {:induction false} JoinLastToken(init: seq<Token>, last: Token, owners: seq<nat>, n: nat)
    requires last.start < |owners|
    requires forall t :: t in init ==> t.start < |owners| && owners[t.start] <= owners[last.start]
    ensures JoinParts(init + [last], owners, n) ==
              JoinParts(init, owners, n) + if owners[last.start] < n then [last.out] else []
  {
    if n > 0 {
      JoinLastToken(init, last, owners, n - 1);
      PartOfAppend(init, last, owners, n - 1);
      var earlier, part := JoinParts(init, owners, n - 1), PartOf(init, owners, n - 1);
      if owners[last.start] < n - 1 {
        NoPart(init, owners, n - 1);
        assert part == [] && earlier + [last.out] + [] == (earlier + []) + [last.out];
      } else if owners[last.start] == n - 1 {
        assert (earlier + []) + (part + [last.out]) == (earlier + part) + [last.out];
      } else {
        assert (earlier + []) + (part + []) == (earlier + part) + [];
      }
    }
  }

  lemma LastComesLast(init: seq<Token>, last: Token, owners: seq<nat>)
    requires InOrder(init + [last], owners)
    ensures InOrder(init, owners) && forall t :: t in init ==> owners[t.start] <= owners[last.start]
  {
    var ts := init + [last];
    assert forall i :: 0 <= i < |init| ==> init[i] == ts[i];
    forall t | t in init ensures owners[t.start] <= owners[last.start] {
      var i :| 0 <= i < |init| && init[i] == t;
      assert ts[i] == t && ts[|init|] == last;
    }
  }

  lemma {:induction false} PartsJoinToOutputs(ts: seq<Token>, owners: seq<nat>, n: nat)
    requires InOrder(ts, owners) && forall t :: t in ts ==> owners[t.start] < n
    ensures JoinParts(ts, owners, n) == Outputs(ts)
  {
    if ts == [] {
      JoinNothing(owners, n);
    } else {
      var init, last := ts[..|ts| - 1], ts[|ts| - 1];
      assert ts == init + [last];
      LastComesLast(init, last, owners);
      PartsJoinToOutputs(init, owners, n);
      assert Outputs(ts) == Outputs(init) + [last.out];
      JoinLastToken(init, last, owners, n);
    }
  }

  lemma JoinChunks(chunks: seq<Chunk>, ts: seq<Token>, owners: seq<nat>)
    requires forall t :: t in ts ==> t.start < |owners|
    requires forall i :: 0 <= i < |chunks| ==> chunks[i].data == PartOf(ts, owners, i)
    ensures Join(chunks) == JoinParts(ts, owners, |chunks|)
  {
    JoinFirst(chunks, ts, owners, |chunks|);
    assert chunks[..|chunks|] == chunks;
  }

  lemma {:induction false} JoinFirst(chunks: seq<Chunk>, ts: seq<Token>, owners: seq<nat>, n: nat)
    requires n <= |chunks| && forall t :: t in ts ==> t.start < |owners|
    requires forall i :: 0 <= i < |chunks| ==> chunks[i].data == PartOf(ts, owners, i)
    ensures Join(chunks[..n]) == JoinParts(ts, owners, n)
    decreases n
  {
    if n > 0 {
      JoinFirst(chunks, ts, owners, n - 1);
      JoinNext(chunks, n - 1);
      assert JoinParts(ts, owners, n) == JoinParts(ts, owners, n - 1) + PartOf(ts, owners, n - 1);
    }
  }

  lemma JoinNext(chunks: seq<Chunk>, n: nat)
    requires n < |chunks|
    ensures Join(chunks[..n + 1]) == Join(chunks[..n]) + chunks[n].data
  {
    assert chunks[..n + 1][..n] == chunks[..n];
  }

  ghost predicate HoldParts(parts: seq<Bytes>, ts: seq<Token>, owners: seq<nat>) {
    && (forall t :: t in ts ==> t.start < |owners|)
    && (forall i :: 0 <= i < |parts| ==> parts[i] == PartOf(ts, owners, i))
  }

  lemma HoldNextToken(parts: seq<Bytes>, ts: seq<Token>, t: Token, owners: seq<nat>)
    requires HoldParts(parts, ts, owners) && t.start < |owners| && owners[t.start] < |parts|
    ensures var k := owners[t.start];
            HoldParts(parts[k := parts[k] + [t.out]], ts + [t], owners)
  {
    var k := owners[t.start];
    var after := parts[k := parts[k] + [t.out]];
    forall i | 0 <= i < |after| ensures after[i] == PartOf(ts + [t], owners, i) {
      PartOfAppend(ts, t, owners, i);
    }
  }

  /** The scanning loop: appends each emitted byte to the part of the owning chunk. */
  method ScanParts(joined: Bytes, owner: seq<nat>, swaps: seq<Swap>, n: nat) returns (parts: seq<Bytes>)
    requires WellFormed(swaps) && |owner| == |joined| && forall p :: 0 <= p < |owner| ==> owner[p] < n
    ensures |parts| == n && HoldParts(parts, Tokens(joined, swaps, 0), owner)
  {
    parts := seq(n, _ => []);
    var pos := 0;
    ghost var done: seq<Token> := [];
    ghost var all := Tokens(joined, swaps, 0);
    while pos < |joined|
      invariant 0 <= pos <= |joined| && |parts| == n
      invariant all == done + Tokens(joined, swaps, pos)
      invariant HoldParts(parts, done, owner)
      decreases |joined| - pos
    {
      NextFits(joined, swaps, pos);
      var found := FirstMatch(swaps, joined[pos..]);
      var emitted := if found.Some? then found.value.marker else joined[pos];
      ghost var token := TokenAt(joined, swaps, pos);
      HoldNextToken(parts, done, token, owner);
      var k := owner[pos];
      parts := parts[k := parts[k] + [emitted]];
      pos := pos + if found.Some? then |found.value.path| else 1;
      done := done + [token];
    }
    assert done == all;
  }

  /** `sanitize_chunks`: chunk count and timestamps are kept; the joined output is the
      simple redaction of the joined input, so chunk boundaries never matter; each piece of
      output sits in the chunk in which its input began, so before every chunk boundary there
      is exactly the output of what began before it; and a recording in which nothing matches
      comes back as it was. */
  method SanitizeChunks(chunks: seq<Chunk>, swaps: seq<Swap>) returns (out: seq<Chunk>)
    requires WellFormed(swaps)
    ensures |out| == |chunks|
    ensures forall i :: 0 <= i < |chunks| ==> out[i].at == chunks[i].at
    ensures Join(out) == Redact(Join(chunks), swaps)
    ensures var ts := Tokens(Join(chunks), swaps, 0);
            forall i :: 0 <= i <= |chunks| ==> |Join(out[..i])| == StartsBefore(ts, |Join(chunks[..i])|)
    ensures HoldParts(DataOf(out), Tokens(Join(chunks), swaps, 0), Owners(chunks))
    ensures NothingMatches(Join(chunks), swaps) ==> out == chunks
  {
    var joined, owner := JoinWithOwners(chunks);
    OwnersFit(chunks);
    var parts := ScanParts(joined, owner, swaps, |chunks|);
    out := seq(|chunks|, i requires 0 <= i < |chunks| => Chunk(chunks[i].at, parts[i]));
    assert DataOf(out) == parts;
    PartsAreTheRedaction(chunks, swaps, out);
    PartsArePlaced(chunks, swaps, out);
    if NothingMatches(joined, swaps) {
      UntouchedRecording(chunks, swaps, out);
    }
  }

  /** The stream and, for every byte of it, the chunk it came from. */
  method JoinWithOwners(chunks: seq<Chunk>) returns (joined: Bytes, owner: seq<nat>)
    ensures joined == Join(chunks) && owner == Owners(chunks)
  {
    joined, owner := [], [];
    for i := 0 to |chunks|
      invariant joined == Join(chunks[..i]) && owner == Owners(chunks[..i])
    {
      assert chunks[..i + 1][..i] == chunks[..i];
      joined := joined + chunks[i].data;
      owner := owner + seq(|chunks[i].data|, _ => i);
    }
    assert chunks[..|chunks|] == chunks;
  }

  function DataOf(chunks: seq<Chunk>): seq<Bytes> {
    seq(|chunks|, i requires 0 <= i < |chunks| => chunks[i].data)
  }

  // --- Where the pieces go, without naming the owners -----------------------------------------

  /** How many tokens begin before position `b` of the stream. */
  function StartsBefore(ts: seq<Token>, b: nat): nat {
    if ts == [] then 0 else StartsBefore(ts[..|ts| - 1], b) + if ts[|ts| - 1].start < b then 1 else 0
  }

  predicate NothingMatches(s: Bytes, swaps: seq<Swap>) {
    forall p, w :: 0 <= p < |s| && w in swaps ==> !(w.path <= s[p..])
  }

  /** How far the scan moves from a position: over the path found there, or one byte. */
  function Width(s: Bytes, swaps: seq<Swap>, pos: nat): nat
    requires pos <= |s|
  {
    var found := FirstMatch(swaps, s[pos..]);
    if found.Some? then |found.value.path| else 1
  }

  /** The tokens tile the stream from `pos` on: the first begins there, each next one where the
      one before it ends, and the last one ends with the stream. */
  ghost predicate Tile(ts: seq<Token>, pos: nat, end: nat, width: nat -> nat) {
    if ts == [] then pos == end
    else ts[0].start == pos && Tile(ts[1..], pos + width(pos), end, width)
  }

  /** The width of the token at a position, 0 past the end. */
  function WidthIn(s: Bytes, swaps: seq<Swap>): nat -> nat {
    (pos: nat) => if pos <= |s| then Width(s, swaps, pos) else 0
  }

  lemma {:induction false} TokensTile(s: Bytes, swaps: seq<Swap>, pos: nat)
    requires WellFormed(swaps) && pos <= |s|
    ensures Tile(Tokens(s, swaps, pos), pos, |s|, WidthIn(s, swaps))
    decreases |s| - pos
  {
    if pos < |s| {
      var next := NextPos(s, swaps, pos);
      NextFits(s, swaps, pos);
      TokensTile(s, swaps, next);
      TilePrepend(TokenAt(s, swaps, pos), Tokens(s, swaps, next), pos, |s|, WidthIn(s, swaps));
    }
  }

  lemma TilePrepend(t: Token, rest: seq<Token>, pos: nat, end: nat, width: nat -> nat)
    requires t.start == pos && Tile(rest, pos + width(pos), end, width)
    ensures Tile([t] + rest, pos, end, width)
  {
    assert ([t] + rest)[1..] == rest;
  }

  lemma {:induction false} OwnersAre(chunks: seq<Chunk>, p: nat, i: nat)
    requires p < |Owners(chunks)| && i <= |chunks|
    ensures Owners(chunks)[p] < i <==> p < |Join(chunks[..i])|
  {
    var n := |chunks| - 1;
    if n >= 0 {
      var init := chunks[..n];
      OwnersFit(init);
      OwnersFit(chunks);
      if i <= n {
        assert init[..i] == chunks[..i];
        if p < |Owners(init)| {
          OwnersAre(init, p, i);
        } else {
          JoinGrows(init, i);
        }
      } else {
        assert chunks[..i] == chunks;
      }
    }
  }

  lemma {:induction false} JoinGrows(chunks: seq<Chunk>, i: nat)
    requires i <= |chunks|
    ensures Join(chunks[..i]) <= Join(chunks)
    decreases |chunks|
  {
    if i < |chunks| {
      var init := chunks[..|chunks| - 1];
      assert init[..i] == chunks[..i];
      JoinGrows(init, i);
    } else {
      assert chunks[..i] == chunks;
    }
  }

  lemma {:induction false} JoinedCount(ts: seq<Token>, owners: seq<nat>, n: nat, b: nat)
    requires InOrder(ts, owners)
    requires forall t :: t in ts ==> (owners[t.start] < n <==> t.start < b)
    ensures |JoinParts(ts, owners, n)| == StartsBefore(ts, b)
  {
    if ts == [] {
      JoinNothing(owners, n);
    } else {
      var init, last := ts[..|ts| - 1], ts[|ts| - 1];
      assert ts == init + [last];
      LastComesLast(init, last, owners);
      JoinedCount(init, owners, n, b);
      JoinLastToken(init, last, owners, n);
    }
  }

  lemma PartsArePlaced(chunks: seq<Chunk>, swaps: seq<Swap>, out: seq<Chunk>)
    requires WellFormed(swaps) && |out| == |chunks|
    requires forall t :: t in Tokens(Join(chunks), swaps, 0) ==> t.start < |Owners(chunks)|
    requires forall i :: 0 <= i < |out| ==>
               out[i].data == PartOf(Tokens(Join(chunks), swaps, 0), Owners(chunks), i)
    ensures forall i :: 0 <= i <= |chunks| ==>
              |Join(out[..i])| == StartsBefore(Tokens(Join(chunks), swaps, 0), |Join(chunks[..i])|)
  {
    var ts, owners := Tokens(Join(chunks), swaps, 0), Owners(chunks);
    OwnersFit(chunks);
    TokensAscend(Join(chunks), swaps, 0);
    AscendingInOrder(ts, owners, |chunks|);
    forall i | 0 <= i <= |chunks| ensures |Join(out[..i])| == StartsBefore(ts, |Join(chunks[..i])|) {
      PlacedAt(chunks, out[..i], ts, i);
    }
  }

  lemma PlacedAt(chunks: seq<Chunk>, first: seq<Chunk>, ts: seq<Token>, i: nat)
    requires i == |first| <= |chunks| && InOrder(ts, Owners(chunks))
    requires forall k :: 0 <= k < i ==> first[k].data == PartOf(ts, Owners(chunks), k)
    ensures |Join(first)| == StartsBefore(ts, |Join(chunks[..i])|)
  {
    JoinChunks(first, ts, Owners(chunks));
    forall t | t in ts ensures Owners(chunks)[t.start] < i <==> t.start < |Join(chunks[..i])| {
      OwnersAre(chunks, t.start, i);
    }
    JoinedCount(ts, Owners(chunks), i, |Join(chunks[..i])|);
  }

  lemma {:induction false} JoinLengthsFixChunks(a: seq<Chunk>, b: seq<Chunk>, i: nat)
    requires i < |a| == |b| && Join(a) == Join(b)
    requires forall k :: 0 <= k <= |a| ==> |Join(a[..k])| == |Join(b[..k])|
    ensures a[i].data == b[i].data
  {
    JoinGrows(a, i);
    JoinGrows(a, i + 1);
    JoinGrows(b, i);
    JoinGrows(b, i + 1);
    var lo, hi := |Join(a[..i])|, |Join(a[..i + 1])|;
    assert a[..i + 1][..i] == a[..i] && b[..i + 1][..i] == b[..i];
    assert a[i].data == Join(a[..i + 1])[lo..] == Join(a)[lo..hi];
    assert b[i].data == Join(b[..i + 1])[lo..] == Join(b)[lo..hi];
  }

  lemma {:induction false} UntouchedTokens(s: Bytes, swaps: seq<Swap>, pos: nat)
    requires NothingMatches(s, swaps) && pos <= |s|
    ensures Redact(s[pos..], swaps) == s[pos..]
    ensures |Tokens(s, swaps, pos)| == |s| - pos
    ensures forall k :: 0 <= k < |s| - pos ==> Tokens(s, swaps, pos)[k].start == pos + k
    decreases |s| - pos
  {
    if pos < |s| {
      FirstMatchIsAMatch(swaps, s[pos..]);
      UntouchedTokens(s, swaps, pos + 1);
      assert s[pos..][1..] == s[pos + 1..];
      assert s[pos..] == [s[pos]] + s[pos + 1..];
    }
  }

  lemma {:induction false} CountInOrder(ts: seq<Token>, b: nat)
    requires b <= |ts| && forall k :: 0 <= k < |ts| ==> ts[k].start == k
    ensures StartsBefore(ts, b) == b
    decreases |ts|
  {
    if ts != [] {
      CountInOrder(ts[..|ts| - 1], if b < |ts| then b else |ts| - 1);
      if b == |ts| { CountSame(ts[..|ts| - 1], b - 1, b); }
    }
  }

  lemma {:induction false} CountSame(ts: seq<Token>, a: nat, b: nat)
    requires forall t :: t in ts ==> (t.start < a <==> t.start < b)
    ensures StartsBefore(ts, a) == StartsBefore(ts, b)
    decreases |ts|
  {
    if ts != [] { CountSame(ts[..|ts| - 1], a, b); }
  }

  lemma UntouchedRecording(chunks: seq<Chunk>, swaps: seq<Swap>, out: seq<Chunk>)
    requires NothingMatches(Join(chunks), swaps) && |out| == |chunks|
    requires forall i :: 0 <= i < |chunks| ==> out[i].at == chunks[i].at
    requires Join(out) == Redact(Join(chunks), swaps)
    requires forall i :: 0 <= i <= |chunks| ==>
               |Join(out[..i])| == StartsBefore(Tokens(Join(chunks), swaps, 0), |Join(chunks[..i])|)
    ensures out == chunks
  {
    var s, ts := Join(chunks), Tokens(Join(chunks), swaps, 0);
    UntouchedTokens(s, swaps, 0);
    assert s[0..] == s;
    forall i | 0 <= i <= |chunks| ensures |Join(out[..i])| == |Join(chunks[..i])| {
      JoinGrows(chunks, i);
      CountInOrder(ts, |Join(chunks[..i])|);
    }
    forall i | 0 <= i < |chunks| ensures out[i] == chunks[i] {
      JoinLengthsFixChunks(out, chunks, i);
    }
  }

  lemma AscendingInOrder(ts: seq<Token>, owners: seq<nat>, n: nat)
    requires Ascending(ts, |owners|) && Monotone(owners, n)
    ensures InOrder(ts, owners) && forall t :: t in ts ==> owners[t.start] < n
  {
    forall i, j | 0 <= i <= j < |ts| ensures owners[ts[i].start] <= owners[ts[j].start] {
      assert ts[i] in ts && ts[j] in ts;
    }
  }

  lemma PartsAreTheRedaction(chunks: seq<Chunk>, swaps: seq<Swap>, out: seq<Chunk>)
    requires WellFormed(swaps) && |out| == |chunks|
    requires forall t :: t in Tokens(Join(chunks), swaps, 0) ==> t.start < |Owners(chunks)|
    requires forall i :: 0 <= i < |out| ==>
               out[i].data == PartOf(Tokens(Join(chunks), swaps, 0), Owners(chunks), i)
    ensures Join(out) == Redact(Join(chunks), swaps)
  {
    var ts, owners := Tokens(Join(chunks), swaps, 0), Owners(chunks);
    OwnersFit(chunks);
    TokensAscend(Join(chunks), swaps, 0);
    AscendingInOrder(ts, owners, |chunks|);
    JoinChunks(out, ts, owners);
    PartsJoinToOutputs(ts, owners, |chunks|);
    TokensSpellRedaction(Join(chunks), swaps, 0);
    assert Join(chunks)[0..] == Join(chunks);
  }

  // --- What can survive ---------------------------------------------------------------------

  predicate OccursAt(p: Bytes, t: Bytes, k: nat) {
    k + |p| <= |t| && t[k..k + |p|] == p
  }

  ghost predicate Occurs(p: Bytes, t: Bytes) {
    exists k: nat :: OccursAt(p, t, k)
  }

  /** `p` is still there after the stream `s` has been redacted. */
  ghost predicate SurvivesIn(p: Bytes, s: Bytes, swaps: seq<Swap>) {
    Occurs(p, Redact(s, swaps))
  }

  /** All texts that are `p` with some marker bytes undone, that is, replaced by a path they
      stand for. There are only finitely many. */
  function Undoings(p: Bytes, swaps: seq<Swap>): set<Bytes> {
    if p == [] then {[]}
    else
      var rest := Undoings(p[1..], swaps);
      (set x | x in rest :: [p[0]] + x) + (set w, x | w in swaps && w.marker == p[0] && x in rest :: w.path + x)
  }

  /** Decided from the path and the swaps alone. */
  predicate CanSurvive(p: Bytes, swaps: seq<Swap>) {
    exists x :: x in Undoings(p, swaps) && Redact(x, swaps) == p
  }

  /** A match in a prefix is a match in the whole, in the same order of preference. */
  lemma {:induction false} FirstMatchOfPrefix(swaps: seq<Swap>, x: Bytes, s: Bytes)
    requires x <= s
    ensures FirstMatch(swaps, s).None? ==> FirstMatch(swaps, x).None?
    ensures FirstMatch(swaps, s).Some? && FirstMatch(swaps, s).value.path <= x ==>
              FirstMatch(swaps, x) == FirstMatch(swaps, s)
  {
    if swaps != [] { FirstMatchOfPrefix(swaps[1..], x, s); }
  }

  /** The first byte of the output stands for the first `n` bytes of the input. */
  lemma RedactRest(s: Bytes, swaps: seq<Swap>) returns (n: nat)
    requires WellFormed(swaps) && s != []
    ensures 0 < n <= |s| && Redact(s, swaps) != [] && Redact(s, swaps)[1..] == Redact(s[n..], swaps)
  {
    FirstMatchIsAMatch(swaps, s);
    n := if FirstMatch(swaps, s).None? then 1 else |FirstMatch(swaps, s).value.path|;
  }

  lemma OccursInRest(p: Bytes, t: Bytes, k: nat)
    requires 0 < k && OccursAt(p, t, k)
    ensures t != [] && OccursAt(p, t[1..], k - 1)
  {
    assert t[1..][k - 1..k - 1 + |p|] == t[k..k + |p|];
  }

  /** Skip tokens until the occurrence begins. */
  lemma {:induction false} SkipTo(p: Bytes, s: Bytes, swaps: seq<Swap>, k: nat) returns (rest: Bytes)
    requires WellFormed(swaps) && OccursAt(p, Redact(s, swaps), k)
    ensures p <= Redact(rest, swaps)
    decreases k
  {
    if k == 0 {
      rest := s;
    } else {
      OccursInRest(p, Redact(s, swaps), k);
      var n := RedactRest(s, swaps);
      rest := SkipTo(p, s[n..], swaps, k - 1);
    }
  }

  /** The input under an occurrence already redacts to it on its own. */
  lemma {:induction false} Trim(p: Bytes, s: Bytes, swaps: seq<Swap>) returns (x: Bytes)
    requires WellFormed(swaps) && p <= Redact(s, swaps)
    ensures x <= s && x in Undoings(p, swaps) && Redact(x, swaps) == p
    decreases |p|
  {
    if p == [] {
      x := [];
    } else {
      FirstMatchIsAMatch(swaps, s);
      var m := FirstMatch(swaps, s);
      var n := if m.None? then 1 else |m.value.path|;
      assert p[1..] <= Redact(s[n..], swaps) by {
        assert Redact(s, swaps)[1..] == Redact(s[n..], swaps);
      }
      var y := Trim(p[1..], s[n..], swaps);
      x := s[..n] + y;
      assert x <= s && x[n..] == y;
      FirstMatchOfPrefix(swaps, x, s);
      assert x in Undoings(p, swaps) by {
        assert p[0] == Redact(s, swaps)[0];
        assert s[..n] == if m.None? then [p[0]] else m.value.path;
      }
    }
  }

  lemma UndoOne(b: Byte, rest: Bytes, swaps: seq<Swap>, piece: Bytes, x: Bytes)
    requires x in Undoings(rest, swaps) && (piece == [b] || exists w :: w in swaps && w.marker == b && w.path == piece)
    ensures piece + x in Undoings([b] + rest, swaps)
  {
    assert ([b] + rest)[1..] == rest && ([b] + rest)[0] == b;
  }

  /** Redaction does nothing but put markers in the place of paths: undoing some of the markers
      of the output gives the input back. */
  lemma {:induction false} RedactionCanBeUndone(s: Bytes, swaps: seq<Swap>)
    requires WellFormed(swaps)
    ensures s in Undoings(Redact(s, swaps), swaps)
    decreases |s|
  {
    if s != [] {
      var b, n, rest := RedactFirst(s, swaps);
      RedactionCanBeUndone(s[n..], swaps);
      UndoWhole(s, n, b, rest, Redact(s, swaps), swaps);
    }
  }

  lemma UndoWhole(s: Bytes, n: nat, b: Byte, rest: Bytes, out: Bytes, swaps: seq<Swap>)
    requires n <= |s| && out == [b] + rest && s[n..] in Undoings(rest, swaps)
    requires s[..n] == [b] || exists w :: w in swaps && w.marker == b && w.path == s[..n]
    ensures s in Undoings(out, swaps)
  {
    UndoOne(b, rest, swaps, s[..n], s[n..]);
    assert s == s[..n] + s[n..];
  }

  lemma RedactFirst(s: Bytes, swaps: seq<Swap>) returns (b: Byte, n: nat, rest: Bytes)
    requires WellFormed(swaps) && s != []
    ensures 0 < n <= |s| && rest == Redact(s[n..], swaps) && Redact(s, swaps) == [b] + rest
    ensures s[..n] == [b] || exists w :: w in swaps && w.marker == b && w.path == s[..n]
  {
    FirstMatchIsAMatch(swaps, s);
    var m := FirstMatch(swaps, s);
    if m.None? {
      b, n := s[0], 1;
    } else {
      b, n := m.value.marker, |m.value.path|;
    }
    rest := Redact(s[n..], swaps);
  }

  /** Exactly when some stream lets `p` survive redaction: when undoing markers inside `p`
      itself gives a text that redacts back to `p`. */
  lemma SurvivesIff(p: Bytes, swaps: seq<Swap>)
    requires WellFormed(swaps)
    ensures (exists s :: SurvivesIn(p, s, swaps)) <==> CanSurvive(p, swaps)
  {
    if s :| SurvivesIn(p, s, swaps) {
      var k: nat :| OccursAt(p, Redact(s, swaps), k);
      var rest := SkipTo(p, s, swaps, k);
      var x := Trim(p, rest, swaps);
    }
    if x :| x in Undoings(p, swaps) && Redact(x, swaps) == p {
      assert OccursAt(p, Redact(x, swaps), 0);
      assert SurvivesIn(p, x, swaps);
    }
  }

  lemma {:induction false} NothingToUndo(p: Bytes, x: Bytes, swaps: seq<Swap>)
    requires x in Undoings(p, swaps) && forall w :: w in swaps ==> w.marker !in p
    ensures x == p
    decreases |p|
  {
    if p != [] {
      var y :| y in Undoings(p[1..], swaps) && x == [p[0]] + y;
      NothingToUndo(p[1..], y, swaps);
    }
  }

  /** A replaced path that contains no marker byte never survives, in any stream and across
      any chunk boundary: the docstring's "never commit host paths". */
  lemma ReplacedPathNeverSurvives(s: Bytes, swaps: seq<Swap>, host: Swap)
    requires WellFormed(swaps) && host in swaps
    requires forall w :: w in swaps ==> w.marker !in host.path
    ensures !SurvivesIn(host.path, s, swaps)
  {
    SurvivesIff(host.path, swaps);
    forall x | x in Undoings(host.path, swaps) ensures Redact(x, swaps) != host.path {
      NothingToUndo(host.path, x, swaps);
      FirstMatchIsAMatch(swaps, x);
    }
  }

  /** Nor does any text around it, with or without markers: a dotted directory below a home
      directory without markers is gone as well. */
  lemma TextAroundItNeverSurvives(s: Bytes, swaps: seq<Swap>, host: Swap, text: Bytes)
    requires WellFormed(swaps) && host in swaps && Occurs(host.path, text)
    requires forall w :: w in swaps ==> w.marker !in host.path
    ensures !SurvivesIn(text, s, swaps)
  {
    if SurvivesIn(text, s, swaps) {
      OccursWithin(host.path, text, Redact(s, swaps));
      ReplacedPathNeverSurvives(s, swaps, host);
    }
  }

  lemma OccursWithin(p: Bytes, text: Bytes, t: Bytes)
    requires Occurs(p, text) && Occurs(text, t)
    ensures Occurs(p, t)
  {
    var i: nat :| OccursAt(p, text, i);
    var k: nat :| OccursAt(text, t, k);
    var inner := t[k..k + |text|];
    assert inner == text && inner[i..i + |p|] == p;
    var j: nat := k + i;
    forall m | 0 <= m < |p| ensures t[j..j + |p|][m] == p[m] {
      assert t[j + m] == inner[i + m] == inner[i..i + |p|][m];
    }
    assert t[j..j + |p|] == p;
    assert OccursAt(p, t, j);
  }

  lemma SwapsAreWellFormed(cwd: string, home: string, encode: char -> Bytes, cwdFirst: bool)
    requires PrefixCode(encode)
    ensures WellFormed(MakeSwaps(cwd, home, encode, cwdFirst))
  {
    forall path: string | path != "" ensures EncodeAll(path, encode) != [] {
      assert encode(path[0]) <= EncodeAll(path, encode);
    }
  }

  /** The same for the two paths the program redacts, in either order it may try them: unless
      the text of the path contains a marker, neither it nor anything written around it (a
      directory below it, dotted or not) is left in any recording. */
  lemma HostPathsNeverSurvive(cwd: string, home: string, encode: char -> Bytes, cwdFirst: bool, s: Bytes,
                              host: string, text: Bytes)
    requires PrefixCode(encode) && (host == cwd || host == home) && host != "" && host != "/"
    requires DOT !in EncodeAll(host, encode) && TILDE !in EncodeAll(host, encode)
    requires Occurs(EncodeAll(host, encode), text)
    ensures !SurvivesIn(text, s, MakeSwaps(cwd, home, encode, cwdFirst))
  {
    var swaps := MakeSwaps(cwd, home, encode, cwdFirst);
    SwapsAreWellFormed(cwd, home, encode, cwdFirst);
    var w := Swap(EncodeAll(host, encode), if host == cwd then DOT else TILDE);
    assert w in SwapFor(cwd, DOT, encode) + SwapFor(home, TILDE, encode);
    assert w in swaps && forall x :: x in swaps ==> x.marker == DOT || x.marker == TILDE;
    TextAroundItNeverSurvives(s, swaps, w, text);
  }

  /** The whole of it: a recording made in `cwd` by a user whose home is `home`. Of a path whose
      text holds no marker nothing is left, in the chunks joined, nor of anything around it. */
  method SanitizeRecording(chunks: seq<Chunk>, cwd: string, home: string, encode: char -> Bytes, cwdFirst: bool)
    returns (out: seq<Chunk>)
    requires PrefixCode(encode)
    ensures |out| == |chunks| && forall i :: 0 <= i < |chunks| ==> out[i].at == chunks[i].at
    ensures Join(out) == Redact(Join(chunks), MakeSwaps(cwd, home, encode, cwdFirst))
    ensures forall host, text :: HostText(cwd, home, encode, host, text) ==> !Occurs(text, Join(out))
  {
    SwapsAreWellFormed(cwd, home, encode, cwdFirst);
    out := SanitizeChunks(chunks, MakeSwaps(cwd, home, encode, cwdFirst));
    forall host, text | HostText(cwd, home, encode, host, text) ensures !Occurs(text, Join(out)) {
      HostPathsNeverSurvive(cwd, home, encode, cwdFirst, Join(chunks), host, text);
    }
  }

  /** The text holds one of the two paths, which can be replaced and holds no marker. */
  ghost predicate HostText(cwd: string, home: string, encode: char -> Bytes, host: string, text: Bytes) {
    && (host == cwd || host == home) && host != "" && host != "/"
    && DOT !in EncodeAll(host, encode) && TILDE !in EncodeAll(host, encode)
    && Occurs(EncodeAll(host, encode), text)
  }

  predicate MatchAt(w: Swap, s: Bytes, j: nat) {
    j <= |s| && w.path <= s[j..]
  }

  lemma LiteralByte(s: Bytes, w: Swap, i: nat)
    requires i < |s| && !MatchAt(w, s, i)
    ensures Redact(s[i..], [w]) == [s[i]] + Redact(s[i + 1..], [w])
  {
    assert [w][1..] == [];
    assert FirstMatch([w], s[i..]).None?;
    assert s[i..][1..] == s[i + 1..];
  }

  lemma {:induction false} LiteralPrefix(s: Bytes, w: Swap, i: nat, n: nat)
    requires i <= n <= |s| && forall j: nat :: i <= j < n ==> !MatchAt(w, s, j)
    ensures Redact(s[i..], [w]) == s[i..n] + Redact(s[n..], [w])
    decreases n - i
  {
    if i < n {
      LiteralByte(s, w, i);
      LiteralPrefix(s, w, i + 1, n);
      Regroup(s, i, n, Redact(s[n..], [w]));
    }
  }

  lemma Regroup(s: Bytes, i: nat, n: nat, rest: Bytes)
    requires i < n <= |s|
    ensures [s[i]] + (s[i + 1..n] + rest) == s[i..n] + rest
  {
    assert s[i..n] == [s[i]] + s[i + 1..n];
  }

  function FirstIndex(p: Bytes, b: Byte): (k: nat)
    requires b in p
    ensures k < |p| && p[k] == b && b !in p[..k]
  {
    if p[0] == b then 0
    else
      var k := FirstIndex(p[1..], b) + 1;
      assert p[..k] == [p[0]] + p[1..][..k - 1];
      k
  }

  /** No match of the path begins inside the part before its first marker. */
  lemma NoEarlyMatch(w: Swap, u: Bytes, v: Bytes, j: nat)
    requires w.path == u + [w.marker] + v && w.marker !in u && j < |u|
    ensures !MatchAt(w, u + w.path + v, j)
  {
    var x := u + w.path + v;
    assert x[j..][|u|] == x[j + |u|] == w.path[j] == u[j];
    assert w.path[|u|] == w.marker;
  }

  /** Undoing the first marker of a path inside the path itself: the only match in the
      result is the one put there, so it redacts back to the path. */
  lemma SelfInsertionSurvives(w: Swap, u: Bytes, v: Bytes)
    requires w.path == u + [w.marker] + v && w.marker !in u
    ensures Redact(u + w.path + v, [w]) == w.path
  {
    LiteralBefore(w, u, v);
    MatchThenTail(w, v);
    assert w.path == u + ([w.marker] + v);
  }

  lemma LiteralBefore(w: Swap, u: Bytes, v: Bytes)
    requires w.path == u + [w.marker] + v && w.marker !in u
    ensures Redact(u + w.path + v, [w]) == u + Redact(w.path + v, [w])
  {
    var x := u + w.path + v;
    forall j: nat | j < |u| ensures !MatchAt(w, x, j) {
      NoEarlyMatch(w, u, v, j);
    }
    LiteralPrefix(x, w, 0, |u|);
    assert x[0..] == x;
    TakeDrop(u, w.path, v);
  }

  lemma TakeDrop(u: Bytes, p: Bytes, v: Bytes)
    ensures (u + p + v)[..|u|] == u && (u + p + v)[|u|..] == p + v
  {
  }

  lemma MatchThenTail(w: Swap, v: Bytes)
    requires |v| < |w.path|
    ensures Redact(w.path + v, [w]) == [w.marker] + v
  {
    assert FirstMatch([w], w.path + v) == Some(w);
    assert (w.path + v)[|w.path|..] == v;
    LiteralPrefix(v, w, 0, |v|);
    assert v[0..] == v[..|v|] == v && v[|v|..] == [];
  }

  lemma MarkedPathSurvives(w: Swap) returns (s: Bytes)
    requires w.marker in w.path
    ensures SurvivesIn(w.path, s, [w])
  {
    var k := FirstIndex(w.path, w.marker);
    var u, v := w.path[..k], w.path[k + 1..];
    s := u + w.path + v;
    SelfInsertionSurvives(w, u, v);
    assert OccursAt(w.path, w.path, 0);
  }

  /** With one path to replace (the other empty or "/"), the condition is just this: the
      path survives in some stream exactly when it contains its own marker. */
  lemma OnePathSurvivesIff(w: Swap)
    requires w.path != []
    ensures (exists s :: SurvivesIn(w.path, s, [w])) <==> w.marker in w.path
  {
    if w.marker in w.path {
      var s := MarkedPathSurvives(w);
    } else {
      forall s ensures !SurvivesIn(w.path, s, [w]) {
        ReplacedPathNeverSurvives(s, [w], w);
      }
    }
  }
}
