/** Grouping raw terminal reads into atomic events (scripts/record_tui_demo.py
    `coalesce_atomic`). */
module CastEvents {
  import opened Prelude

  const ESC: Byte := 0x1b
  const CSI: Bytes := [ESC, 0x5b]
  const OSC: Bytes := [ESC, 0x5d]
  const DCS: Bytes := [ESC, 0x50]
  const ST: Bytes := [ESC, 0x5c]
  const BEL: Byte := 0x07
  /** ESC [ ? 2 0 2 6 h and its closing counterpart with l. */
  const SYNC_ON: Bytes := [ESC, 0x5b, 0x3f, 0x32, 0x30, 0x32, 0x36, 0x68]
  const SYNC_OFF: Bytes := [ESC, 0x5b, 0x3f, 0x32, 0x30, 0x32, 0x36, 0x6c]

  datatype Read = Read(at: real, data: Bytes)

  // --- The open test ------------------------------------------------------------------------

  /** `bytes.count`: non-overlapping occurrences. */
  function Count(p: Bytes, s: Bytes): nat
    requires p != []
    decreases |s|
  {
    if |s| < |p| then 0
    else if p <= s then 1 + Count(p, s[|p|..])
    else Count(p, s[1..])
  }

  predicate At(p: Bytes, s: Bytes, k: int) {
    0 <= k && k + |p| <= |s| && s[k..k + |p|] == p
  }

  /** `bytes.rfind`: the last position of `p`, or -1. */
  function RFind(p: Bytes, s: Bytes): (k: int)
    ensures k == -1 || At(p, s, k)
  {
    if |s| < |p| then -1
    else if s[|s| - |p|..] == p then |s| - |p|
    else if s == [] then -1
    else
      assert forall k :: At(p, s[..|s| - 1], k) ==> At(p, s, k) by {
        forall k | At(p, s[..|s| - 1], k) ensures At(p, s, k) {
          assert s[..|s| - 1][k..k + |p|] == s[k..k + |p|];
        }
      }
      RFind(p, s[..|s| - 1])
  }

  lemma {:induction false} RFindIsLast(p: Bytes, s: Bytes, k: int)
    requires At(p, s, k)
    ensures k <= RFind(p, s)
  {
    if s[|s| - |p|..] != p {
      assert s[..|s| - 1][k..k + |p|] == s[k..k + |p|];
      RFindIsLast(p, s[..|s| - 1], k);
    }
  }

  function Max(a: int, b: int): int {
    if a >= b then a else b
  }

  predicate SyncStillOpen(s: Bytes) {
    Count(SYNC_ON, s) > Count(SYNC_OFF, s)
  }

  /** Where the last introducer begins, or -1. */
  function LastIntro(s: Bytes): int {
    Max(RFind(CSI, s), Max(RFind(OSC, s), RFind(DCS, s)))
  }

  /** The text from an introducer on has no terminator yet. */
  predicate OpenTail(tail: Bytes) {
    if CSI <= tail then forall i :: 2 <= i < |tail| ==> !(0x40 <= tail[i] <= 0x7e)
    else |tail| >= 2 && BEL !in tail[2..] && RFind(ST, tail[2..]) < 0
  }

  predicate EndsBare(s: Bytes) {
    s != [] && s[|s| - 1] == ESC
  }

  /** Nothing introduced: does a bare ESC end the chunk? Otherwise: is the tail from the last
      introducer still open? */
  predicate OpenFrom(s: Bytes, last: int)
    requires last <= |s|
  {
    if last < 0 then EndsBare(s) else OpenTail(s[last..])
  }

  predicate EndsInsideEscape(s: Bytes) {
    OpenFrom(s, LastIntro(s))
  }

  /** The next read still belongs to this event. */
  predicate Open(s: Bytes) {
    SyncStillOpen(s) || EndsInsideEscape(s)
  }

  // --- Segmentations --------------------------------------------------------------------------

  function Data(rs: seq<Read>): Bytes {
    if rs == [] then [] else Data(rs[..|rs| - 1]) + rs[|rs| - 1].data
  }

  function Flatten(groups: seq<seq<Read>>): seq<Read> {
    if groups == [] then [] else Flatten(groups[..|groups| - 1]) + groups[|groups| - 1]
  }

  /** The test whether the next read still belongs to the event. */
  type OpenTest = Bytes -> bool

  /** A nonempty group of consecutive reads whose every shorter prefix is still open. */
  predicate Grows(group: seq<Read>, open: OpenTest) {
    group != [] && forall n :: 0 < n < |group| ==> open(Data(group[..n]))
  }

  /** The grouping the docstring describes: reads are joined only while the event is open,
      and every event but the last is closed. */
  predicate Atomic(groups: seq<seq<Read>>, open: OpenTest) {
    && (forall g :: 0 <= g < |groups| ==> Grows(groups[g], open))
    && (forall g :: 0 <= g < |groups| - 1 ==> !open(Data(groups[g])))
  }

  predicate Segments(groups: seq<seq<Read>>, rs: seq<Read>, open: OpenTest) {
    Flatten(groups) == rs && Atomic(groups, open)
  }

  function EventOf(group: seq<Read>): Read {
    Read(if group == [] then 0.0 else group[0].at, Data(group))
  }

  function Events(groups: seq<seq<Read>>): seq<Read> {
    seq(|groups|, i requires 0 <= i < |groups| => EventOf(groups[i]))
  }

  /** The loop of `coalesce_atomic` computes the events of such a segmentation (`groups` is
      one, and there is no other): each event carries the time of its first read. */
  method Coalesce(rs: seq<Read>, open: OpenTest) returns (out: seq<Read>, ghost groups: seq<seq<Read>>)
    ensures Segments(groups, rs, open) && out == Events(groups)
    ensures |out| == |groups|
    ensures forall i :: 0 <= i < |out| ==>
              groups[i] != [] && out[i].at == groups[i][0].at && out[i].data == Data(groups[i])
    ensures forall gs :: Segments(gs, rs, open) ==> out == Events(gs)
  {
    out, groups := GroupReads(rs, open);
    forall gs | Segments(gs, rs, open) ensures out == Events(gs) {
      SegmentationIsUnique(gs, groups, rs, open);
    }
  }

  method GroupReads(rs: seq<Read>, open: OpenTest) returns (out: seq<Read>, ghost groups: seq<seq<Read>>)
    ensures Segments(groups, rs, open) && out == Events(groups)
  {
    out, groups := [], [];
    if rs == [] { return; }
    var startAt, buf := rs[0].at, rs[0].data;
    ghost var current := [rs[0]];
    DataOfOne(rs[0]);
    for i := 1 to |rs|
      invariant Grows(current, open) && startAt == current[0].at && buf == Data(current)
      invariant Atomic(groups, open) && forall g :: 0 <= g < |groups| ==> !open(Data(groups[g]))
      invariant out == Events(groups)
      invariant Flatten(groups) + current == rs[..i]
    {
      assert rs[..i + 1] == rs[..i] + [rs[i]];
      if open(buf) {
        ghost var longer := current + [rs[i]];
        assert longer[..|current|] == current;
        assert forall n :: 0 < n < |current| ==> longer[..n] == current[..n];
        assert Flatten(groups) + longer == (Flatten(groups) + current) + [rs[i]];
        buf := buf + rs[i].data;
        current := longer;
      } else {
        out := out + [Read(startAt, buf)];
        assert (groups + [current])[..|groups|] == groups;
        groups := groups + [current];
        startAt, buf := rs[i].at, rs[i].data;
        current := [rs[i]];
        DataOfOne(rs[i]);
      }
    }
    assert rs[..|rs|] == rs;
    out := out + [Read(startAt, buf)];
    assert (groups + [current])[..|groups|] == groups;
    groups := groups + [current];
  }

  /** `coalesce_atomic` with the code's own test; no byte is lost, added or reordered. */
  method CoalesceAtomic(rs: seq<Read>) returns (out: seq<Read>, ghost groups: seq<seq<Read>>)
    ensures Segments(groups, rs, Open) && out == Events(groups)
    ensures forall gs :: Segments(gs, rs, Open) ==> out == Events(gs)
    ensures Data(out) == Data(rs)
  {
    out, groups := Coalesce(rs, Open);
    BytesArePreserved(groups);
  }

  lemma {:induction false} FlattenFirst(groups: seq<seq<Read>>)
    requires groups != []
    ensures Flatten(groups) == groups[0] + Flatten(groups[1..])
  {
    if |groups| == 1 {
      assert groups[..0] == [] && groups[1..] == [];
      assert Flatten(groups) == [] + groups[0];
    } else {
      var init, last := groups[..|groups| - 1], groups[|groups| - 1];
      FlattenFirst(init);
      FlattenLast(init[1..], last);
      assert groups[1..] == init[1..] + [last];
      Regroup(groups[0], Flatten(init[1..]), last);
    }
  }

  lemma FlattenLast(groups: seq<seq<Read>>, last: seq<Read>)
    ensures Flatten(groups + [last]) == Flatten(groups) + last
  {
    assert (groups + [last])[..|groups|] == groups;
  }

  lemma Regroup(a: seq<Read>, b: seq<Read>, c: seq<Read>)
    ensures (a + b) + c == a + (b + c)
  {
  }

  /** The first group of one segmentation cannot be a proper prefix of another's. */
  lemma FirstGroupsAgree(a: seq<seq<Read>>, b: seq<seq<Read>>, open: OpenTest)
    requires a != [] && b != [] && Atomic(a, open) && Atomic(b, open) && Flatten(a) == Flatten(b)
    requires |a[0]| <= |b[0]|
    ensures a[0] == b[0]
  {
    FlattenFirst(a);
    FlattenFirst(b);
    var n := |a[0]|;
    assert a[0] == Flatten(a)[..n];
    assert b[0][..n] == Flatten(b)[..n];
    assert Grows(a[0], open) && Grows(b[0], open);
    if |a| == 1 {
      assert a[1..] == [] && Flatten(a) == a[0];
      assert |Flatten(b)| == n;
    } else {
      assert !open(Data(a[0]));
    }
  }

  /** There is only one such segmentation of a recording. */
  lemma {:induction false} SegmentationIsUnique(
      a: seq<seq<Read>>, b: seq<seq<Read>>, rs: seq<Read>, open: OpenTest)
    requires Segments(a, rs, open) && Segments(b, rs, open)
    ensures a == b
    decreases |a|
  {
    if a != [] { FlattenFirst(a); }
    if b != [] { FlattenFirst(b); }
    if a != [] && b != [] {
      if |a[0]| <= |b[0]| { FirstGroupsAgree(a, b, open); } else { FirstGroupsAgree(b, a, open); }
      assert a[0] == rs[..|a[0]|] == b[0];
      assert Flatten(a[1..]) == rs[|a[0]|..] == Flatten(b[1..]);
      SegmentationIsUnique(a[1..], b[1..], rs[|a[0]|..], open);
      assert a == [a[0]] + a[1..] && b == [b[0]] + b[1..];
    }
  }

  lemma {:induction false} DataConcat(a: seq<Read>, b: seq<Read>)
    ensures Data(a + b) == Data(a) + Data(b)
  {
    if b == [] {
      assert a + b == a;
      assert Data(a) + [] == Data(a);
    } else {
      var init, last := b[..|b| - 1], b[|b| - 1];
      DataConcat(a, init);
      assert (a + b)[..|a + b| - 1] == a + init && (a + b)[|a + b| - 1] == last;
      assert (Data(a) + Data(init)) + last.data == Data(a) + (Data(init) + last.data);
    }
  }

  /** No byte is lost, added or reordered. */
  lemma {:induction false} BytesArePreserved(groups: seq<seq<Read>>)
    ensures Data(Events(groups)) == Data(Flatten(groups))
  {
    if groups != [] {
      var init := groups[..|groups| - 1];
      BytesArePreserved(init);
      assert Events(groups)[..|groups| - 1] == Events(init);
      DataConcat(Flatten(init), groups[|groups| - 1]);
    }
  }

  function Singletons(events: seq<Read>): seq<seq<Read>> {
    seq(|events|, i requires 0 <= i < |events| => [events[i]])
  }

  lemma {:induction false} FlattenSingletons(events: seq<Read>)
    ensures Flatten(Singletons(events)) == events
  {
    if events != [] {
      FlattenSingletons(events[..|events| - 1]);
      assert Singletons(events)[..|events| - 1] == Singletons(events[..|events| - 1]);
    }
  }

  lemma DataOfOne(r: Read)
    ensures Data([r]) == r.data
  {
    assert [r][..0] == [];
  }

  /** Coalescing an already coalesced recording changes nothing. */
  lemma CoalescingIsIdempotent(groups: seq<seq<Read>>, rs: seq<Read>, again: seq<seq<Read>>, open: OpenTest)
    requires Segments(groups, rs, open) && Segments(again, Events(groups), open)
    ensures Events(again) == Events(groups)
  {
    var events := Events(groups);
    var ones := Singletons(events);
    forall i | 0 <= i < |ones| ensures Data(ones[i]) == Data(groups[i]) && EventOf(ones[i]) == events[i] {
      DataOfOne(events[i]);
    }
    assert Atomic(ones, open);
    FlattenSingletons(events);
    SegmentationIsUnique(again, ones, events, open);
  }

  // --- Synchronized blocks ------------------------------------------------------------------

  /** No proper suffix of the text begins it, so its occurrences do not overlap. */
  predicate NoOverlap(p: Bytes) {
    p != [] && forall k :: 0 < k < |p| ==> p[k] != p[0]
  }

  /** At how many positions from `k` on the text occurs. */
  function Occurrences(p: Bytes, s: Bytes, k: nat): nat
    decreases |s| - k
  {
    if k >= |s| then 0 else (if At(p, s, k) then 1 else 0) + Occurrences(p, s, k + 1)
  }

  lemma {:induction false} NoneBetween(p: Bytes, s: Bytes, a: nat, b: nat)
    requires a <= b <= |s| && forall k :: a <= k < b ==> !At(p, s, k)
    ensures Occurrences(p, s, a) == Occurrences(p, s, b)
    decreases b - a
  {
    if a < b { NoneBetween(p, s, a + 1, b); }
  }

  /** Counting without overlap misses no position. */
  lemma {:induction false} CountIsOccurrences(p: Bytes, s: Bytes, k: nat)
    requires NoOverlap(p) && k <= |s|
    ensures Count(p, s[k..]) == Occurrences(p, s, k)
    decreases |s| - k
  {
    if |s| - k < |p| {
      NoneBetween(p, s, k, |s|);
    } else if p <= s[k..] {
      CountIsOccurrences(p, s, k + |p|);
      assert s[k..][|p|..] == s[k + |p|..] && s[k..k + |p|] == p;
      forall j | k + 1 <= j < k + |p| ensures !At(p, s, j) {
        assert s[j] == p[j - k] != p[0];
        assert j + |p| <= |s| ==> s[j..j + |p|][0] == s[j];
      }
      NoneBetween(p, s, k + 1, k + |p|);
    } else {
      CountIsOccurrences(p, s, k + 1);
      assert s[k..][1..] == s[k + 1..];
      assert s[k..k + |p|] == s[k..][..|p|];
    }
  }

  /** A block is open exactly when the opening text occurs at more places than the closing one. */
  lemma SyncIsOpenIff(s: Bytes)
    ensures SyncStillOpen(s) <==> Occurrences(SYNC_ON, s, 0) > Occurrences(SYNC_OFF, s, 0)
  {
    assert s[0..] == s;
    CountIsOccurrences(SYNC_ON, s, 0);
    CountIsOccurrences(SYNC_OFF, s, 0);
  }

  // --- What the escape test misses ----------------------------------------------------------

  predicate Introduces(s: Bytes, k: int) {
    At(CSI, s, k) || At(OSC, s, k) || At(DCS, s, k)
  }

  ghost predicate LastIntroducer(s: Bytes, k: int) {
    Introduces(s, k) && forall j :: Introduces(s, j) ==> j <= k
  }

  /** The sequence introduced at `k` has ended, by the terminators that the source names: a
      final byte for CSI, BEL or ST for OSC, ST for DCS. */
  ghost predicate Terminated(s: Bytes, k: int)
    requires Introduces(s, k)
  {
    var payload := s[k + 2..];
    if At(CSI, s, k) then exists i :: 0 <= i < |payload| && 0x40 <= payload[i] <= 0x7e
    else (exists j :: At(ST, payload, j)) || (At(OSC, s, k) && BEL in payload)
  }

  /** What a left-to-right scanner is in the middle of. */
  datatype Mode = Text | InCsi | InOsc | InDcs

  /** The mode, and whether the byte just read was an ESC. */
  datatype ScanState = ScanState(mode: Mode, esc: bool)

  /** The byte ends what `mode` is in the middle of. */
  predicate Ends(mode: Mode, esc: bool, b: Byte) {
    match mode
    case Text => false
    case InCsi => 0x40 <= b <= 0x7e
    case InOsc => b == BEL || (esc && b == ST[1])
    case InDcs => esc && b == ST[1]
  }

  predicate IntroByte(b: Byte) {
    b == CSI[1] || b == OSC[1] || b == DCS[1]
  }

  function ModeOf(b: Byte): Mode {
    if b == CSI[1] then InCsi else if b == OSC[1] then InOsc else InDcs
  }

  /** One byte: after an ESC, an introducer starts a new sequence, whatever was open; otherwise
      the byte may end what is open. */
  function ScanByte(st: ScanState, b: Byte): ScanState {
    if st.esc && IntroByte(b) then ScanState(ModeOf(b), false)
    else ScanState(if Ends(st.mode, st.esc, b) then Text else st.mode, b == ESC)
  }

  function Scan(s: Bytes): ScanState {
    if s == [] then ScanState(Text, false) else ScanByte(Scan(s[..|s| - 1]), s[|s| - 1])
  }

  /** The chunk ends in the middle of an escape sequence. */
  predicate Unfinished(s: Bytes) {
    Scan(s) != ScanState(Text, false)
  }

  /** A bare ESC after a sequence that had ended. */
  ghost predicate EscAfterEnd(s: Bytes) {
    EndsBare(s) && exists k :: LastIntroducer(s, k) && Terminated(s, k)
  }

  /** A BEL inside a DCS that still waits for its ST. */
  ghost predicate BellInsideDcs(s: Bytes) {
    exists k :: LastIntroducer(s, k) && At(DCS, s, k) && BEL in s[k + 2..] && !Terminated(s, k)
  }

  lemma LastIntroIsLast(s: Bytes)
    ensures forall k :: LastIntroducer(s, k) <==> LastIntro(s) >= 0 && k == LastIntro(s)
    ensures forall k :: Introduces(s, k) ==> 0 <= k <= LastIntro(s)
  {
    var last := LastIntro(s);
    forall j | Introduces(s, j) ensures 0 <= j <= last {
      if At(CSI, s, j) { RFindIsLast(CSI, s, j); }
      if At(OSC, s, j) { RFindIsLast(OSC, s, j); }
      if At(DCS, s, j) { RFindIsLast(DCS, s, j); }
    }
    if last >= 0 {
      assert Introduces(s, last);
    }
  }

  /** The introducers differ in their second byte, so at one place there is only one. */
  lemma OneIntroducer(s: Bytes, k: int)
    requires Introduces(s, k)
    ensures CSI <= s[k..] <==> At(CSI, s, k)
    ensures At(DCS, s, k) <==> !At(CSI, s, k) && !At(OSC, s, k)
  {
    assert s[k..k + 2] == s[k..][..2];
    assert CSI[1] == 0x5b && OSC[1] == 0x5d && DCS[1] == 0x50;
  }

  ghost function ModeAt(s: Bytes, k: int): Mode
    requires Introduces(s, k)
  {
    if Terminated(s, k) then Text else if At(CSI, s, k) then InCsi else if At(OSC, s, k) then InOsc else InDcs
  }

  lemma NewIntroducer(s: Bytes, b: Byte)
    requires EndsBare(s) && IntroByte(b)
    ensures LastIntroducer(s + [b], |s| - 1) && ModeAt(s + [b], |s| - 1) == ModeOf(b)
  {
    var t, k := s + [b], |s| - 1;
    assert t[k..k + 2] == [ESC, b];
    assert t[k + 2..] == [];
  }

  lemma OldIntroducer(s: Bytes, b: Byte, k: int)
    requires !(EndsBare(s) && IntroByte(b))
    ensures Introduces(s + [b], k) <==> Introduces(s, k)
    ensures At(CSI, s + [b], k) <==> At(CSI, s, k)
    ensures At(OSC, s + [b], k) <==> At(OSC, s, k)
  {
    var t := s + [b];
    if 0 <= k && k + 2 <= |s| {
      assert t[k..k + 2] == s[k..k + 2];
    } else if k == |s| - 1 >= 0 {
      assert t[k..k + 2] == [s[k], b];
    }
  }

  lemma StAppend(payload: Bytes, b: Byte)
    ensures (exists j :: At(ST, payload + [b], j)) <==>
              (exists j :: At(ST, payload, j)) || (EndsBare(payload) && b == ST[1])
  {
    var t, n := payload + [b], |payload| - 1;
    if j :| At(ST, payload, j) {
      assert t[j..j + 2] == payload[j..j + 2];
      assert At(ST, t, j);
    }
    if EndsBare(payload) && b == ST[1] {
      assert t[n..n + 2] == ST;
      assert At(ST, t, n);
    }
    if j :| At(ST, t, j) {
      if j + 2 <= |payload| {
        assert payload[j..j + 2] == t[j..j + 2];
        assert At(ST, payload, j);
      } else {
        assert t[j..j + 2] == [payload[n], b];
      }
    }
  }

  lemma CsiAppend(payload: Bytes, b: Byte)
    ensures (exists i :: 0 <= i < |payload + [b]| && 0x40 <= (payload + [b])[i] <= 0x7e) <==>
              (exists i :: 0 <= i < |payload| && 0x40 <= payload[i] <= 0x7e) || 0x40 <= b <= 0x7e
  {
    var t := payload + [b];
    assert t[|payload|] == b && forall i :: 0 <= i < |payload| ==> t[i] == payload[i];
  }

  /** An open sequence ends at the byte at which the scanner says so. */
  lemma ModeAppend(s: Bytes, b: Byte, k: int)
    requires Introduces(s, k) && !(EndsBare(s) && IntroByte(b))
    ensures Introduces(s + [b], k)
    ensures ModeAt(s + [b], k) == if Ends(ModeAt(s, k), EndsBare(s), b) then Text else ModeAt(s, k)
  {
    OldIntroducer(s, b, k);
    OneIntroducer(s, k);
    var payload := s[k + 2..];
    assert (s + [b])[k + 2..] == payload + [b];
    assert s[k..k + 2][1] == s[k + 1];
    assert payload != [] ==> payload[|payload| - 1] == s[|s| - 1];
    assert EndsBare(payload) <==> EndsBare(s);
    StAppend(payload, b);
    CsiAppend(payload, b);
  }

  /** The scanner is in the middle of the sequence introduced last, unless that one has ended:
      reading from the left comes to the same as looking for the last introducer. */
  lemma {:induction false} ScanIsLastIntroducer(s: Bytes)
    ensures Scan(s).esc == EndsBare(s)
    ensures forall k :: LastIntroducer(s, k) ==> Scan(s).mode == ModeAt(s, k)
    ensures (forall k :: !Introduces(s, k)) ==> Scan(s).mode == Text
  {
    if s != [] {
      var init, b := s[..|s| - 1], s[|s| - 1];
      assert s == init + [b];
      ScanIsLastIntroducer(init);
      if EndsBare(init) && IntroByte(b) {
        NewIntroducer(init, b);
      } else {
        forall k ensures Introduces(s, k) <==> Introduces(init, k) {
          OldIntroducer(init, b, k);
        }
        forall k | LastIntroducer(s, k) ensures Scan(s).mode == ModeAt(s, k) {
          assert LastIntroducer(init, k);
          ModeAppend(init, b, k);
        }
      }
    }
  }

  lemma NoSt(payload: Bytes)
    ensures RFind(ST, payload) < 0 <==> !exists j :: At(ST, payload, j)
  {
    if j :| At(ST, payload, j) {
      RFindIsLast(ST, payload, j);
    }
  }

  lemma OpenCsi(tail: Bytes, payload: Bytes)
    requires CSI <= tail && payload == tail[2..]
    ensures OpenTail(tail) <==> !exists i :: 0 <= i < |payload| && 0x40 <= payload[i] <= 0x7e
  {
    assert forall i :: 0 <= i < |payload| ==> payload[i] == tail[i + 2];
    assert forall i :: 2 <= i < |tail| ==> tail[i] == payload[i - 2];
  }

  lemma OpenString(tail: Bytes, payload: Bytes)
    requires !(CSI <= tail) && |tail| >= 2 && payload == tail[2..]
    ensures OpenTail(tail) <==> BEL !in payload && !exists j :: At(ST, payload, j)
  {
    NoSt(payload);
  }

  /** The code's test against the terminators it names, where something was introduced. */
  lemma TestAfterIntroducer(s: Bytes, k: int)
    requires Introduces(s, k)
    ensures OpenTail(s[k..]) <==> !Terminated(s, k) && !(At(DCS, s, k) && BEL in s[k + 2..])
  {
    OneIntroducer(s, k);
    assert s[k..][2..] == s[k + 2..];
    if At(CSI, s, k) {
      OpenCsi(s[k..], s[k + 2..]);
    } else {
      OpenString(s[k..], s[k + 2..]);
    }
  }

  /** Exactly when the test is wrong, measured against the scanner: it never takes a finished
      chunk for an unfinished one, and it misses an unfinished one exactly when a bare ESC follows a sequence that had
      ended, or when a BEL occurs inside a DCS that still waits for its ST. */
  lemma EscapeTestIsWrongIff(s: Bytes)
    ensures EndsInsideEscape(s) ==> Unfinished(s)
    ensures Unfinished(s) && !EndsInsideEscape(s) <==> EscAfterEnd(s) || BellInsideDcs(s)
  {
    LastIntroIsLast(s);
    ScanIsLastIntroducer(s);
    var k := LastIntro(s);
    if k >= 0 {
      assert LastIntroducer(s, k);
      assert Scan(s).mode == ModeAt(s, k);
      TestAfterIntroducer(s, k);
    } else {
      assert Scan(s).mode == Text;
    }
  }

  // --- Strings that hold on until their terminator -------------------------------------------

  predicate InString(mode: Mode) {
    mode.InOsc? || mode.InDcs?
  }

  /** The stricter reading: an OSC or DCS swallows everything, introducers included, until its
      own terminator. */
  function HoldByte(st: ScanState, b: Byte): ScanState {
    if st.esc && IntroByte(b) && !InString(st.mode) then ScanState(ModeOf(b), false)
    else ScanState(if Ends(st.mode, st.esc, b) then Text else st.mode, b == ESC)
  }

  function HoldScan(s: Bytes): ScanState {
    if s == [] then ScanState(Text, false) else HoldByte(HoldScan(s[..|s| - 1]), s[|s| - 1])
  }

  predicate HeldOpen(s: Bytes) {
    HoldScan(s) != ScanState(Text, false)
  }

  /** The payload holds a terminator of the string. */
  ghost predicate EndedBy(mode: Mode, payload: Bytes) {
    (exists j :: At(ST, payload, j)) || (mode.InOsc? && BEL in payload)
  }

  lemma HoldStep(s: Bytes, n: nat)
    requires n < |s|
    ensures s[..n + 1][..n] == s[..n] && s[..n + 1][n] == s[n]
    ensures HoldScan(s[..n + 1]) == HoldByte(HoldScan(s[..n]), s[n])
    ensures Scan(s[..n + 1]) == ScanByte(Scan(s[..n]), s[n])
  {
    assert s[..n + 1][..n] == s[..n];
  }

  lemma {:induction false} EscIsLastByte(s: Bytes)
    ensures HoldScan(s).esc == EndsBare(s) && Scan(s).esc == EndsBare(s)
  {
    if s != [] { EscIsLastByte(s[..|s| - 1]); }
  }

  /** Past the last introducer no byte starts a new sequence. */
  lemma NoneStarts(s: Bytes, k: int, n: nat)
    requires LastIntroducer(s, k) && k + 2 <= n < |s|
    ensures !(EndsBare(s[..n]) && IntroByte(s[n]))
  {
    assert !Introduces(s, n - 1);
    assert s[n - 1..n + 1] == [s[n - 1], s[n]];
  }

  /** Both scanners read the two bytes of the last introducer. */
  lemma ReadIntroducer(s: Bytes, k: int)
    requires Introduces(s, k)
    ensures k >= 0 && k + 2 <= |s| && IntroByte(s[k + 1])
    ensures Scan(s[..k + 2]) == ScanState(ModeOf(s[k + 1]), false)
    ensures var m := HoldScan(s[..k]).mode;
            HoldScan(s[..k + 2]) == ScanState(if InString(m) then m else ModeOf(s[k + 1]), false)
  {
    assert s[k..k + 2][0] == s[k] && s[k..k + 2][1] == s[k + 1];
    HoldStep(s, k);
    HoldStep(s, k + 1);
  }

  lemma {:induction false} FreeScansAgree(s: Bytes, k: int, n: nat)
    requires LastIntroducer(s, k) && k + 2 <= n <= |s| && !InString(HoldScan(s[..k]).mode)
    ensures HoldScan(s[..n]) == Scan(s[..n])
    decreases n
  {
    ReadIntroducer(s, k);
    if n > k + 2 {
      FreeScansAgree(s, k, n - 1);
      HoldStep(s, n - 1);
      EscIsLastByte(s[..n - 1]);
      NoneStarts(s, k, n - 1);
    }
  }

  lemma {:induction false} StringHolds(s: Bytes, k: int, n: nat)
    requires LastIntroducer(s, k) && k + 2 <= n <= |s| && InString(HoldScan(s[..k]).mode)
    ensures var m := HoldScan(s[..k]).mode;
            HoldScan(s[..n]).mode == if EndedBy(m, s[k + 2..n]) then Text else m
    decreases n
  {
    ReadIntroducer(s, k);
    if n == k + 2 {
      assert s[k + 2..n] == [];
    } else {
      StringHolds(s, k, n - 1);
      HoldStep(s, n - 1);
      EscIsLastByte(s[..n - 1]);
      NoneStarts(s, k, n - 1);
      var payload := s[k + 2..n - 1];
      assert s[k + 2..n] == payload + [s[n - 1]];
      StAppend(payload, s[n - 1]);
      BareTail(s, k, n - 1);
    }
  }

  lemma BareTail(s: Bytes, k: int, n: nat)
    requires Introduces(s, k) && k + 2 <= n <= |s|
    ensures EndsBare(s[k + 2..n]) <==> EndsBare(s[..n])
  {
    ReadIntroducer(s, k);
    if n > k + 2 {
      assert s[k + 2..n][|s[k + 2..n]| - 1] == s[n - 1] == s[..n][n - 1];
    } else {
      assert s[..n][n - 1] == s[k + 1];
    }
  }

  /** The last introducer lies inside a string that waits for its terminator. */
  ghost predicate Swallowed(s: Bytes) {
    exists k :: LastIntroducer(s, k) && InString(HoldScan(s[..k]).mode)
  }

  /** The bytes after the introducer at `k` hold no terminator that the test accepts for it. */
  ghost predicate OpenByIntroducer(s: Bytes, k: int)
    requires Introduces(s, k)
  {
    !Terminated(s, k) && !(At(DCS, s, k) && BEL in s[k + 2..])
  }

  /** The bytes after the introducer at `k` hold no terminator of the string around it, or
      they end in a bare ESC. */
  ghost predicate OpenByString(s: Bytes, k: int)
    requires Introduces(s, k)
  {
    EndsBare(s) || !EndedBy(HoldScan(s[..k]).mode, s[k + 2..])
  }

  /** Exactly when the test is wrong by the stricter reading. Outside a string it is the same
      as above. Where the last introducer lies inside a string, the test looks for the wrong
      terminator: it is wrong exactly when the bytes after the introducer are open by the one
      and not by the other. */
  lemma StrictTestIsWrongIff(s: Bytes)
    ensures EndsInsideEscape(s) != HeldOpen(s) <==>
              if Swallowed(s)
              then exists k :: LastIntroducer(s, k) && OpenByIntroducer(s, k) != OpenByString(s, k)
              else EscAfterEnd(s) || BellInsideDcs(s)
  {
    var k := LastIntro(s);
    LastIntroIsLast(s);
    EscIsLastByte(s);
    assert s[..|s|] == s;
    if k >= 0 {
      assert LastIntroducer(s, k);
      if InString(HoldScan(s[..k]).mode) {
        StringHolds(s, k, |s|);
        assert s[k + 2..|s|] == s[k + 2..];
        TestAfterIntroducer(s, k);
      } else {
        FreeScansAgree(s, k, |s|);
        EscapeTestIsWrongIff(s);
      }
    } else {
      NothingIntroduced(s);
      EscapeTestIsWrongIff(s);
    }
  }

  lemma {:induction false} NothingIntroduced(s: Bytes)
    requires forall k :: !Introduces(s, k)
    ensures HoldScan(s) == Scan(s) && Scan(s).mode == Text
  {
    if s != [] {
      var init := s[..|s| - 1];
      forall k ensures !Introduces(init, k) {
        if 0 <= k && k + 2 <= |init| { assert init[k..k + 2] == s[k..k + 2]; }
        assert !Introduces(s, k);
      }
      NothingIntroduced(init);
      EscIsLastByte(init);
      if EndsBare(init) {
        var k := |s| - 2;
        assert s[k..k + 2] == [s[k], s[k + 1]];
        assert !Introduces(s, k);
      }
    }
  }

  /** Inputs for both directions: an OSC hidden by a finished CSI is taken for finished, and a
      CSI inside an OSC keeps open what the BEL has ended. */
  lemma SwallowedIntroducers()
    ensures var s: Bytes := [ESC, 0x5d, ESC, 0x5b, 0x6d]; !EndsInsideEscape(s) && HeldOpen(s)
    ensures var s: Bytes := [ESC, 0x5d, ESC, 0x5b, BEL]; EndsInsideEscape(s) && !HeldOpen(s)
  {
    forall b: Byte | b == 0x6d || b == BEL
      ensures var s: Bytes := [ESC, 0x5d, ESC, 0x5b, b];
              && (EndsInsideEscape(s) <==> b == BEL)
              && HoldScan(s) == ScanState(if b == BEL then Text else InOsc, false)
    {
      OscThenCsi(b);
    }
  }

  lemma OscThenCsi(b: Byte)
    requires b == 0x6d || b == BEL
    ensures var s: Bytes := [ESC, 0x5d, ESC, 0x5b, b];
            && (EndsInsideEscape(s) <==> b == BEL)
            && HoldScan(s) == ScanState(if b == BEL then Text else InOsc, false)
  {
    var s: Bytes := [ESC, 0x5d, ESC, 0x5b, b];
    assert s[2..4] == CSI && s[0..2] == OSC;
    assert Introduces(s, 2);
    forall j | Introduces(s, j) ensures j <= 2 {
      assert s[j..j + 2][0] == s[j] == ESC;
    }
    LastIntroIsLast(s);
    assert LastIntroducer(s, 2) && LastIntro(s) == 2;
    assert s[2..] == [ESC, 0x5b, b];
    assert s[..0] == [] && HoldScan(s[..0]).mode == Text;
    ReadIntroducer(s, 0);
    ReadIntroducer(s, 2);
    HoldStep(s, 4);
    assert s[..5] == s;
  }

  lemma RFindBeforeEsc(p: Bytes, s: Bytes)
    requires |p| == 2 && p[1] != ESC
    ensures RFind(p, s + [ESC]) == RFind(p, s)
  {
    var longer := s + [ESC];
    assert longer[..|s|] == s;
    if |longer| >= 2 {
      assert longer[|longer| - 2..][1] == ESC;
    }
  }

  lemma OpenTailBeforeEsc(tail: Bytes)
    requires |tail| >= 2
    ensures OpenTail(tail + [ESC]) <==> OpenTail(tail)
  {
    var longer := tail + [ESC];
    assert longer[..2] == tail[..2];
    assert CSI <= longer <==> CSI <= tail;
    if CSI <= tail {
      assert forall i :: 0 <= i < |tail| ==> longer[i] == tail[i];
    } else {
      assert longer[2..] == tail[2..] + [ESC];
      RFindBeforeEsc(ST, tail[2..]);
    }
  }

  lemma LastIntroBeforeEsc(s: Bytes)
    ensures LastIntro(s + [ESC]) == LastIntro(s) <= |s| - 2 || LastIntro(s + [ESC]) == LastIntro(s) == -1
  {
    RFindBeforeEsc(CSI, s);
    RFindBeforeEsc(OSC, s);
    RFindBeforeEsc(DCS, s);
  }

  lemma OpenFromBeforeEsc(s: Bytes, k: int)
    requires k <= |s| - 2 || k == -1
    ensures OpenFrom(s + [ESC], k) <==> k < 0 || OpenFrom(s, k)
  {
    if k >= 0 {
      assert (s + [ESC])[k..] == s[k..] + [ESC];
      OpenTailBeforeEsc(s[k..]);
    }
  }

  /** When a trailing ESC is noticed: if nothing was introduced before it, or if the chunk was
      unfinished already. */
  lemma TrailingEscapeIsNoticedIff(s: Bytes)
    ensures EndsInsideEscape(s + [ESC]) <==> LastIntro(s) < 0 || EndsInsideEscape(s)
  {
    LastIntroBeforeEsc(s);
    OpenFromBeforeEsc(s, LastIntro(s));
  }

  /** An input for the first reason: a complete CSI and then a bare ESC. */
  lemma TrailingEscapeIsMissed()
    ensures EscAfterEnd([ESC, 0x5b, 0x6d, ESC]) && !EndsInsideEscape([ESC, 0x5b, 0x6d, ESC])
  {
    var s: Bytes := [ESC, 0x5b, 0x6d, ESC];
    OnlyIntroducer(s, CSI);
    assert s[0 + 2..][0] == 0x6d;
    assert LastIntroducer(s, 0) && Terminated(s, 0);
    EscapeTestIsWrongIff(s);
  }

  /** An input for the second: a DCS with a BEL in it. */
  lemma BellInDcsIsMissed()
    ensures BellInsideDcs([ESC, 0x50, 0x71, BEL]) && !EndsInsideEscape([ESC, 0x50, 0x71, BEL])
  {
    var s: Bytes := [ESC, 0x50, 0x71, BEL];
    OnlyIntroducer(s, DCS);
    var payload := s[0 + 2..];
    assert payload == [0x71, BEL] && payload[1] == BEL;
    assert payload[0..2] == payload;
    assert forall j :: At(ST, payload, j) ==> j == 0;
    OneIntroducer(s, 0);
    assert LastIntroducer(s, 0) && !Terminated(s, 0);
    EscapeTestIsWrongIff(s);
  }

  lemma OnlyIntroducer(s: Bytes, intro: Bytes)
    requires |s| == 4 && s[..2] == intro && s[1] != ESC && s[2] != ESC
    requires intro == CSI || intro == OSC || intro == DCS
    ensures At(intro, s, 0) && LastIntroducer(s, 0)
  {
    assert s[0..2] == s[..2];
    forall j | Introduces(s, j) ensures j <= 0 {
      assert s[j..j + 2][0] == s[j] == ESC;
    }
  }
}
