/** Acceptance of a recorded scenario (scripts/record_tui_demo.py
    `validate_scenario_events`). */
module Scenario {
  import opened Prelude

  /** Event types the check looks at; every other type is `Other`. */
  datatype Kind = Dispatch | Terminal | Failure | Cooldown | Reassign | Other

  /** `node` is "" when the event names none. */
  datatype Event = Event(kind: Kind, node: string)

  datatype Verdict = Accepted | NotConcurrent | NotOrdered

  const WANTED: seq<Kind> := [Failure, Cooldown, Reassign]

  // --- What a scenario must prove -------------------------------------------------------------

  /** After the first `n` events, `node` has been dispatched and has not terminated since. */
  ghost predicate Running(es: seq<Event>, n: int, node: string)
    requires 0 <= n <= |es|
  {
    exists p :: 0 <= p < n && es[p] == Event(Dispatch, node)
                && forall q :: p < q < n ==> es[q] != Event(Terminal, node)
  }

  ghost predicate TwoRunning(es: seq<Event>, n: int)
    requires 0 <= n <= |es|
  {
    exists a, b :: a != b && Running(es, n, a) && Running(es, n, b)
  }

  ghost predicate Concurrent(es: seq<Event>) {
    exists n :: 0 <= n <= |es| && TwoRunning(es, n)
  }

  /** Failure, then cooldown, then reassignment, at increasing positions. */
  predicate RecoversAt(kinds: seq<Kind>, i: int, j: int, k: int) {
    0 <= i < j < k < |kinds| && kinds[i] == Failure && kinds[j] == Cooldown && kinds[k] == Reassign
  }

  ghost predicate Recovers(kinds: seq<Kind>) {
    exists i, j, k :: RecoversAt(kinds, i, j, k)
  }

  function Kinds(es: seq<Event>): seq<Kind> {
    seq(|es|, i requires 0 <= i < |es| => es[i].kind)
  }

  // --- The two loops ---------------------------------------------------------------------------

  lemma RunningStep(es: seq<Event>, n: nat, node: string)
    requires n < |es|
    ensures Running(es, n + 1, node) <==>
              es[n] == Event(Dispatch, node) || (Running(es, n, node) && es[n] != Event(Terminal, node))
  {
    if Running(es, n, node) && es[n] != Event(Terminal, node) {
      var p :| 0 <= p < n && es[p] == Event(Dispatch, node)
               && forall q :: p < q < n ==> es[q] != Event(Terminal, node);
      assert forall q :: p < q < n + 1 ==> es[q] != Event(Terminal, node);
    }
    if Running(es, n + 1, node) {
      var p :| 0 <= p < n + 1 && es[p] == Event(Dispatch, node)
               && forall q :: p < q < n + 1 ==> es[q] != Event(Terminal, node);
      if p < n {
        assert Running(es, n, node);
      }
    }
  }

  ghost predicate LiveSet(es: seq<Event>, n: int, active: set<string>) {
    0 <= n <= |es| && forall x :: x in active <==> Running(es, n, x)
  }

  lemma LiveStep(es: seq<Event>, n: nat, active: set<string>)
    requires n < |es| && LiveSet(es, n, active)
    ensures LiveSet(es, n + 1,
                    match es[n].kind
                    case Dispatch => active + {es[n].node}
                    case Terminal => active - {es[n].node}
                    case _ => active)
  {
    forall x ensures x in active <==> Running(es, n, x) {
    }
    forall x
      ensures Running(es, n + 1, x) <==>
                es[n] == Event(Dispatch, x) || (x in active && es[n] != Event(Terminal, x))
    {
      RunningStep(es, n, x);
    }
  }

  lemma TwoRunningIsTwo(es: seq<Event>, n: nat, active: set<string>)
    requires LiveSet(es, n, active)
    ensures TwoRunning(es, n) <==> |active| >= 2
  {
    if |active| >= 2 {
      var a :| a in active;
      assert |active - {a}| >= 1;
      var b :| b in active - {a};
      assert Running(es, n, a) && Running(es, n, b);
    }
    if a, b :| a != b && Running(es, n, a) && Running(es, n, b) {
      SubsetCount({a, b}, active);
    }
  }

  ghost predicate ConcurrentBy(es: seq<Event>, i: int) {
    exists n :: 0 <= n <= i && n <= |es| && TwoRunning(es, n)
  }

  /** Only a dispatch can bring a second worker in, so testing there is testing everywhere. */
  lemma ConcurrentStep(es: seq<Event>, n: nat)
    requires n < |es|
    ensures ConcurrentBy(es, n + 1) <==>
              ConcurrentBy(es, n) || (es[n].kind == Dispatch && TwoRunning(es, n + 1))
  {
    if es[n].kind != Dispatch && TwoRunning(es, n + 1) {
      var a, b :| a != b && Running(es, n + 1, a) && Running(es, n + 1, b);
      RunningStep(es, n, a);
      RunningStep(es, n, b);
      assert TwoRunning(es, n);
    }
  }

  /** `milestones` are the wanted events among the first `n`, at the positions `at`. */
  ghost predicate Extracts(es: seq<Event>, n: int, milestones: seq<Kind>, at: seq<int>) {
    && 0 <= n <= |es| && |at| == |milestones|
    && (forall m :: 0 <= m < |at| ==> 0 <= at[m] < n && milestones[m] == es[at[m]].kind)
    && (forall m, l :: 0 <= m < l < |at| ==> at[m] < at[l])
    && (forall p :: 0 <= p < n && es[p].kind in WANTED ==> p in at)
  }

  lemma ExtractStep(es: seq<Event>, n: nat, milestones: seq<Kind>, at: seq<int>)
    requires n < |es| && Extracts(es, n, milestones, at)
    ensures if es[n].kind in WANTED then Extracts(es, n + 1, milestones + [es[n].kind], at + [n])
            else Extracts(es, n + 1, milestones, at)
  {
    assert forall p :: p in at ==> p in at + [n];
    assert (at + [n])[|at|] == n;
  }

  /** What the first loop has found after `n` events. */
  datatype Found = Found(active: set<string>, concurrent: bool, milestones: seq<Kind>)

  ghost predicate Collected(es: seq<Event>, n: int, found: Found, at: seq<int>) {
    && LiveSet(es, n, found.active)
    && (found.concurrent <==> ConcurrentBy(es, n))
    && Extracts(es, n, found.milestones, at)
  }

  function Collect(found: Found, e: Event): Found {
    var active := match e.kind
      case Dispatch => found.active + {e.node}
      case Terminal => found.active - {e.node}
      case _ => found.active;
    Found(active, found.concurrent || (e.kind == Dispatch && |active| >= 2),
          if e.kind in WANTED then found.milestones + [e.kind] else found.milestones)
  }

  lemma CollectStep(es: seq<Event>, n: nat, found: Found, at: seq<int>)
    requires n < |es| && Collected(es, n, found, at)
    ensures Collected(es, n + 1, Collect(found, es[n]), if es[n].kind in WANTED then at + [n] else at)
  {
    LiveStep(es, n, found.active);
    ConcurrentStep(es, n);
    ExtractStep(es, n, found.milestones, at);
    if es[n].kind == Dispatch {
      TwoRunningIsTwo(es, n + 1, found.active + {es[n].node});
    }
  }

  /** First loop: who runs at the same time, and the milestone events in order. */
  method CollectMilestones(es: seq<Event>) returns (concurrent: bool, milestones: seq<Kind>, ghost at: seq<int>)
    ensures concurrent <==> Concurrent(es)
    ensures Extracts(es, |es|, milestones, at)
  {
    var active: set<string> := {};
    concurrent, milestones, at := false, [], [];
    assert forall x :: !Running(es, 0, x);
    for i := 0 to |es|
      invariant Collected(es, i, Found(active, concurrent, milestones), at)
    {
      CollectStep(es, i, Found(active, concurrent, milestones), at);
      var kind, node := es[i].kind, es[i].node;
      if kind == Dispatch {
        active := active + {node};
        concurrent := concurrent || |active| >= 2;
      } else if kind == Terminal {
        active := active - {node};
      }
      if kind in WANTED {
        milestones := milestones + [kind];
        at := at + [i];
      }
    }
  }

  /** Dropping the other events neither loses nor invents an ordered recovery. */
  lemma MilestonesSuffice(es: seq<Event>, milestones: seq<Kind>, at: seq<int>)
    requires Extracts(es, |es|, milestones, at)
    ensures Recovers(milestones) <==> Recovers(Kinds(es))
  {
    if i, j, k :| RecoversAt(milestones, i, j, k) {
      assert RecoversAt(Kinds(es), at[i], at[j], at[k]);
    }
    if i, j, k :| RecoversAt(Kinds(es), i, j, k) {
      assert WANTED[0] in WANTED && WANTED[1] in WANTED && WANTED[2] in WANTED;
      var a :| 0 <= a < |at| && at[a] == i;
      var b :| 0 <= b < |at| && at[b] == j;
      var c :| 0 <= c < |at| && at[c] == k;
      assert RecoversAt(milestones, a, b, c);
    }
  }

  /** The wanted kinds up to `stage` occur in order among the first `n` milestones. */
  ghost predicate Reached(ms: seq<Kind>, n: int, stage: int) {
    match stage
    case 1 => exists i :: 0 <= i < n <= |ms| && ms[i] == Failure
    case 2 => exists i, j :: 0 <= i < j < n <= |ms| && ms[i] == Failure && ms[j] == Cooldown
    case 3 => exists i, j, k :: k < n && RecoversAt(ms, i, j, k)
    case _ => stage <= 0
  }

  lemma ReachedStep(ms: seq<Kind>, n: nat, stage: int)
    requires n < |ms| && 1 <= stage <= 3
    ensures Reached(ms, n + 1, stage) <==>
              Reached(ms, n, stage) || (ms[n] == WANTED[stage - 1] && Reached(ms, n, stage - 1))
  {
    if stage == 3 {
      if i, j, k :| k < n + 1 && RecoversAt(ms, i, j, k) {
        assert ms[i] == Failure && ms[j] == Cooldown;
      }
      if ms[n] == Reassign && Reached(ms, n, 2) {
        var i, j :| 0 <= i < j < n && ms[i] == Failure && ms[j] == Cooldown;
        assert RecoversAt(ms, i, j, n);
      }
    }
  }

  /** Second loop: the greedy scan for the next wanted kind. */
  method ScanInOrder(milestones: seq<Kind>) returns (found: bool)
    ensures found <==> Recovers(milestones)
  {
    var stage := 0;
    for n := 0 to |milestones|
      invariant 0 <= stage <= 3
      invariant Reached(milestones, n, 1) <==> stage >= 1
      invariant Reached(milestones, n, 2) <==> stage >= 2
      invariant Reached(milestones, n, 3) <==> stage >= 3
    {
      ReachedStep(milestones, n, 1);
      ReachedStep(milestones, n, 2);
      ReachedStep(milestones, n, 3);
      if stage < 3 && milestones[n] == WANTED[stage] {
        stage := stage + 1;
      }
    }
    found := stage == 3;
    assert Reached(milestones, |milestones|, 3) <==> Recovers(milestones);
  }

  /** `validate_scenario_events` accepts exactly the scenarios that show two workers running
      together and an ordered recovery; the concurrency complaint comes first. */
  method ValidateScenarioEvents(es: seq<Event>) returns (v: Verdict)
    ensures v == if !Concurrent(es) then NotConcurrent else if Recovers(Kinds(es)) then Accepted else NotOrdered
  {
    var concurrent, milestones, at := CollectMilestones(es);
    MilestonesSuffice(es, milestones, at);
    if !concurrent { return NotConcurrent; }
    var found := ScanInOrder(milestones);
    v := if found then Accepted else NotOrdered;
  }
}
