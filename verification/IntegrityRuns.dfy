/**
 Whole runs of accepted transitions. A step is accepted against the run's own last
 global head and last head of its mission; no check ever looks further back.
 */
module IntegrityRuns {
  import opened Common
  import opened Integrity
  import opened IntegrityConditions

  datatype Step = Step(decision: AuthDecision, checkpoint: AuthCheckpoint, event: Event,
                       headFloor: HeadFloor, floors: seq<RevocationFloor>, policy: Policy)

  function LastGlobal(run: seq<Step>): Option<AuthCheckpoint> {
    if run == [] then None else Some(run[|run| - 1].checkpoint)
  }

  function LastDecision(run: seq<Step>): Option<(AuthDecision, AuthCheckpoint)> {
    if run == [] then None else Some((run[|run| - 1].decision, run[|run| - 1].checkpoint))
  }

  /** The steps of one mission, in order. */
  function MissionSteps(run: seq<Step>, mission: Id): seq<Step> {
    if run == [] then [] else
    var last := |run| - 1;
    MissionSteps(run[..last], mission) + if run[last].checkpoint.body.mission == mission then [run[last]] else []
  }

  function LastMission(run: seq<Step>, mission: Id): Option<AuthCheckpoint> {
    LastGlobal(MissionSteps(run, mission))
  }

  ghost predicate StepAccepted(N: Naming, history: seq<Step>, s: Step) {
    var previousGlobal, previousMission := LastGlobal(history), LastMission(history, s.checkpoint.body.mission);
    && ValidCheckpoint(N, s.checkpoint) && ValidDecision(N, s.decision.value) && ValidHeadFloor(N, s.headFloor)
    && BindingAccepted(N, s.checkpoint, s.decision, s.event, previousMission, s.policy)
    && AdvanceVerdict(N, s.checkpoint, s.decision, previousGlobal, previousMission, s.headFloor, s.policy) == Accept
    && RevocationAccepted(LastDecision(history), s.decision, s.floors, s.policy)
  }

  ghost predicate Accepted(N: Naming, run: seq<Step>) {
    forall i | 0 <= i < |run| :: StepAccepted(N, run[..i], run[i])
  }

  lemma PrefixAccepted(N: Naming, run: seq<Step>, n: nat)
    requires Accepted(N, run) && n <= |run|
    ensures Accepted(N, run[..n])
  {
    hide StepAccepted;
    forall i | 0 <= i < n ensures StepAccepted(N, run[..n][..i], run[..n][i]) {
      assert run[..n][..i] == run[..i];
    }
  }

  /** The predecessors an accepted history offers are well-formed. */
  lemma {:induction false} PredecessorsValid(N: Naming, history: seq<Step>, mission: Id)
    requires Accepted(N, history)
    ensures LastGlobal(history).Some? ==> ValidCheckpoint(N, LastGlobal(history).value)
    ensures LastMission(history, mission).Some? ==> ValidCheckpoint(N, LastMission(history, mission).value)
    ensures history != [] ==> Canonical(history[|history| - 1].decision.value.views)
  {
    hide StepAccepted, ValidCheckpoint, Canonical;
    if history != [] {
      var last := |history| - 1;
      PrefixAccepted(N, history, last);
      assert StepAccepted(N, history[..last], history[last]);
      AcceptedValid(N, history[..last], history[last]);
      PredecessorsValid(N, history[..last], mission);
    }
  }

  lemma AcceptedValid(N: Naming, history: seq<Step>, s: Step)
    requires StepAccepted(N, history, s)
    ensures ValidCheckpoint(N, s.checkpoint) && Canonical(s.decision.value.views)
  {
    hide BindingAccepted, AdvanceVerdict, RevocationAccepted;
  }

  /** What the event of a transition has to be. */
  function EventOf(c: AuthCheckpoint, v: Decision): Event {
    var b := c.body;
    Event(b.mission, b.eventSeq, v.kind, b.authority, b.target, v.time.upper, v.priorEventDigest, b.eventDigest)
  }

  /**
   A transition is accepted after an accepted history exactly when it extends that history's
   global and mission heads, is about the one event it decides, carries the revocation views
   on, and meets a catalog that has published everything before it or it as well.
   */
  lemma StepExactly(N: Naming, history: seq<Step>, s: Step)
    requires Accepted(N, history)
    requires ValidCheckpoint(N, s.checkpoint) && ValidDecision(N, s.decision.value) && ValidHeadFloor(N, s.headFloor)
    ensures var c, v := s.checkpoint, s.decision.value;
            var g, m := LastGlobal(history), LastMission(history, c.body.mission);
            StepAccepted(N, history, s) <==>
            && Extends(c, s.decision, g, m, s.policy)
            && (s.headFloor == FloorBefore(c) || s.headFloor == FloorAfter(c))
            && s.event == EventOf(c, v) && (m.Some? ==> m.value.body.time.upper <= v.time.lower)
            && Precedes(LastDecision(history), v, s.policy) && Supported(v, s.floors)
            && (history != [] ==> Carried(history[|history| - 1].decision.value.views, v.views, s.floors))
  {
    hide Accepted, BindingAccepted, AdvanceVerdict, RevocationAccepted, Precedes, Supported, Carried,
         DecidedWithinPolicy, WithinPolicy, Decided, NextOfMission, NextOfInstance, OneHistory;
    var c, d, p := s.checkpoint, s.decision, s.policy;
    var g, m := LastGlobal(history), LastMission(history, c.body.mission);
    PredecessorsValid(N, history, c.body.mission);
    AdvanceExactly(N, c, d, g, m, s.headFloor, p);
    BindingExactly(N, c, d, s.event, m, p);
    RevocationExactly(LastDecision(history), d, s.floors, p);
  }

  // ----- the global chain -----

  /** What one acceptance says about the step before. */
  lemma Successive(N: Naming, run: seq<Step>, i: nat)
    requires Accepted(N, run) && i < |run|
    ensures var s := run[i];
            && s.event.decisionTime == s.decision.value.time.upper <= s.checkpoint.body.time.lower
            && ValidInterval(s.decision.value.time) && ValidInterval(s.checkpoint.body.time)
            && (i == 0 ==>
                  && s.checkpoint.body.sequence == 0
                  && s.checkpoint.body.previous.id
                     == N.globalGenesis(s.checkpoint.body.service, s.checkpoint.body.environment))
            && (i > 0 ==>
                  var p := run[i - 1].checkpoint;
                  && s.checkpoint.body.sequence == p.body.sequence + 1
                  && SameScope(s.checkpoint.body, p.body)
                  && s.checkpoint.body.previous == RefOf(p)
                  && Follows(s.decision.value, p))
  {
    assert StepAccepted(N, run[..i], run[i]);
    if i > 0 { assert LastGlobal(run[..i]) == Some(run[i - 1].checkpoint); }
  }

  /** A checkpoint's place in the run. */
  lemma {:induction false} GlobalChain(N: Naming, run: seq<Step>, i: nat)
    requires Accepted(N, run) && i < |run|
    ensures run[i].checkpoint.body.sequence == i
    ensures SameScope(run[i].checkpoint.body, run[0].checkpoint.body)
    ensures i > 0 ==> run[i].checkpoint.body.previous == RefOf(run[i - 1].checkpoint)
    ensures i == 0 ==> run[i].checkpoint.body.previous.id
                       == N.globalGenesis(run[i].checkpoint.body.service, run[i].checkpoint.body.environment)
  {
    hide Accepted;
    Successive(N, run, i);
    if i > 0 { GlobalChain(N, run, i - 1); }
  }

  // ----- each mission's chain -----

  ghost predicate MissionChained(N: Naming, steps: seq<Step>, k: nat)
    requires k < |steps|
  {
    var s := steps[k];
    && s.event.seq_ == k == s.checkpoint.body.eventSeq
    && s.event.digest == s.checkpoint.body.eventDigest
    && s.event.authority == steps[0].event.authority && s.event.target == steps[0].event.target
    && s.event.prevDigest == (if k == 0 then N.eventGenesis else steps[k - 1].event.digest)
    && (k > 0 ==> s.checkpoint.body.previousMission == RefOf(steps[k - 1].checkpoint))
    && (k == 0 ==> s.checkpoint.body.previousMission.id
                   == N.missionGenesis(s.checkpoint.body.service, s.checkpoint.body.environment,
                                       s.checkpoint.body.mission))
  }

  /** The event a step accepts, against the steps of its mission so far. */
  lemma NewestOfMission(N: Naming, history: seq<Step>, s: Step, steps: seq<Step>)
    requires StepAccepted(N, history, s) && steps == MissionSteps(history, s.checkpoint.body.mission)
    ensures var b, e := s.checkpoint.body, s.event;
            && e.mission == b.mission && e.authority == b.authority && e.target == b.target
            && e.seq_ == b.eventSeq && e.digest == b.eventDigest
            && (steps == [] ==>
                  && b.eventSeq == 0 && e.prevDigest == N.eventGenesis
                  && b.previousMission.id == N.missionGenesis(b.service, b.environment, b.mission))
            && (steps != [] ==>
                  var p := steps[|steps| - 1].checkpoint;
                  && b.eventSeq == p.body.eventSeq + 1 && e.prevDigest == p.body.eventDigest
                  && b.authority == p.body.authority && b.target == p.body.target
                  && b.previousMission == RefOf(p))
  {
  }

  ghost predicate OfMission(s: Step, mission: Id) {
    && s.event.mission == mission == s.checkpoint.body.mission
    && s.event.authority == s.checkpoint.body.authority && s.event.target == s.checkpoint.body.target
  }

  /** Numbered 0, 1, 2, ... without gap, each event chained to the one before it. */
  lemma {:induction false} MissionChain(N: Naming, run: seq<Step>, mission: Id, k: nat)
    requires Accepted(N, run) && k < |MissionSteps(run, mission)|
    ensures OfMission(MissionSteps(run, mission)[k], mission)
    ensures MissionChained(N, MissionSteps(run, mission), k)
  {
    hide StepAccepted;
    var last := |run| - 1;
    var before := MissionSteps(run[..last], mission);
    PrefixAccepted(N, run, last);
    if k < |before| {
      MissionChain(N, run[..last], mission, k);
    } else {
      NewestOfMission(N, run[..last], run[last], before);
      if k > 0 { MissionChain(N, run[..last], mission, k - 1); }
    }
  }

  // ----- time -----

  /** Every interval of an earlier step ends before any interval of a later one begins. */
  lemma {:induction false} TimeOrder(N: Naming, run: seq<Step>, i: nat, j: nat)
    requires Accepted(N, run) && i < j < |run|
    ensures run[i].decision.value.time.upper <= run[i].checkpoint.body.time.lower
    ensures run[i].checkpoint.body.time.upper <= run[j].decision.value.time.lower
    ensures run[i].event.decisionTime <= run[j].event.decisionTime
    decreases j
  {
    hide Accepted;
    Successive(N, run, i);
    Successive(N, run, j);
    if i < j - 1 {
      TimeOrder(N, run, i, j - 1);
      Successive(N, run, j - 1);
    }
  }

  /** A deadline once passed for an accepted decision is before none accepted later. */
  lemma DeadlinesStayPassed(N: Naming, run: seq<Step>, i: nat, j: nat, deadline: int)
    requires Accepted(N, run) && i < j < |run|
    requires ClassifyDeadline(run[i].decision.value.time, deadline) == Some(AtOrAfter)
    ensures ClassifyDeadline(run[j].decision.value.time, deadline) == Some(AtOrAfter)
  {
    TimeOrder(N, run, i, j);
    Successive(N, run, i);
    Successive(N, run, j);
  }

  // ----- revocation -----

  function Views(s: Step): map<Id, View> {
    ByNamespace(s.decision.value.views)
  }

  function Floors(s: Step): map<Id, RevocationFloor> {
    FloorsByNamespace(s.floors)
  }

  lemma RevocationStep(N: Naming, run: seq<Step>, i: nat, n: Id)
    requires Accepted(N, run) && i + 1 < |run| && n in Views(run[i])
    ensures n in Views(run[i + 1]) && n in Floors(run[i]) && n in Floors(run[i + 1])
    ensures ViewMeetsFloor(Views(run[i])[n], Floors(run[i])[n])
    ensures ViewAdvances(Views(run[i])[n], Views(run[i + 1])[n])
    ensures FloorCoversHistory(Views(run[i])[n], Floors(run[i + 1])[n])
  {
    assert StepAccepted(N, run[..i], run[i]) && StepAccepted(N, run[..i + 1], run[i + 1]);
    assert LastDecision(run[..i + 1]) == Some((run[i].decision, run[i].checkpoint));
  }

  /** Each step's floors are for exactly its views, and its views meet them. */
  lemma OwnFloors(N: Naming, run: seq<Step>, i: nat)
    requires Accepted(N, run) && i < |run|
    ensures Views(run[i]).Keys == Floors(run[i]).Keys
    ensures forall n | n in Views(run[i]) :: ViewMeetsFloor(Views(run[i])[n], Floors(run[i])[n])
  {
    assert StepAccepted(N, run[..i], run[i]);
  }

  /** Namespaces stay, versions and roots do not fall, and an unchanged version is an unchanged view. */
  lemma {:induction false} ViewEntriesMonotone(N: Naming, run: seq<Step>, i: nat, j: nat, n: Id)
    requires Accepted(N, run) && i <= j < |run| && n in Views(run[i])
    ensures n in Views(run[j]) && ViewAdvances(Views(run[i])[n], Views(run[j])[n])
    decreases j
  {
    hide Accepted, Views;
    if i < j {
      ViewEntriesMonotone(N, run, i, j - 1, n);
      RevocationStep(N, run, j - 1, n);
    }
  }

  /**
   External floors are monotone and never rewrite a version, although no check compares
   two floors: each later floor covers each earlier view, which met its own floor.
   */
  lemma FloorEntriesMonotone(N: Naming, run: seq<Step>, i: nat, j: nat, n: Id)
    requires Accepted(N, run) && i < j < |run| && n in Floors(run[i])
    ensures n in Floors(run[j]) && n in Views(run[i])
    ensures Floors(run[i])[n].root <= Floors(run[j])[n].root && Floors(run[i])[n].version <= Floors(run[j])[n].version
    ensures Floors(run[i])[n].version == Floors(run[j])[n].version ==>
              && Floors(run[i])[n].snapshot == Floors(run[j])[n].snapshot
              && Floors(run[j])[n].root == Views(run[i])[n].root
  {
    hide Accepted, Views, Floors;
    OwnFloors(N, run, i);
    ViewEntriesMonotone(N, run, i, j - 1, n);
    RevocationStep(N, run, j - 1, n);
  }

  /** The dictionaries of an accepted step are its lists, floor by view. */
  lemma StepLists(N: Naming, run: seq<Step>, i: nat)
    requires Accepted(N, run) && i < |run|
    ensures SideBySide(run[i].decision.value.views, run[i].floors, Views(run[i]), Floors(run[i]))
  {
    hide StepAccepted;
    assert StepAccepted(N, run[..i], run[i]);
    AcceptedLists(N, run[..i], run[i]);
  }

  lemma AcceptedLists(N: Naming, history: seq<Step>, s: Step)
    requires StepAccepted(N, history, s)
    ensures SideBySide(s.decision.value.views, s.floors, Views(s), Floors(s))
  {
    hide AdvanceVerdict, BindingAccepted, RevocationAccepted, SideBySide;
    var v := s.decision.value;
    RevocationParts(LastDecision(history), s.decision, s.floors, s.policy);
    FloorsAcceptedSupport(v, s.floors);
    SupportedAligned(v, s.floors);
  }

  /**
   Namespaces stay: every view of a decision has a successor among the views of every later
   one, with no lower root or version, and the same view where the version is the same.
   */
  lemma ViewsMonotone(N: Naming, run: seq<Step>, i: nat, j: nat, w: View) returns (w': View)
    requires Accepted(N, run) && i <= j < |run| && w in run[i].decision.value.views
    ensures w' in run[j].decision.value.views && w'.namespace == w.namespace
    ensures w.root <= w'.root && w.version <= w'.version && (w.version == w'.version ==> w == w')
  {
    hide Accepted, Views, Floors;
    StepLists(N, run, i);
    StepLists(N, run, j);
    var views, n := run[j].decision.value.views, w.namespace;
    ViewEntriesMonotone(N, run, i, j, n);
    var b :| 0 <= b < |views| && views[b].namespace == n;
    w' := views[b];
  }

  /** Every external floor has a successor among those of every later step, which never rewrites a version. */
  lemma FloorsMonotone(N: Naming, run: seq<Step>, i: nat, j: nat, a: nat) returns (b: nat)
    requires Accepted(N, run) && i < j < |run| && a < |run[i].floors|
    ensures b < |run[j].floors|
    ensures var f, g := run[i].floors[a], run[j].floors[b];
            && g.namespace == f.namespace && f.root <= g.root && f.version <= g.version
            && (f.version == g.version ==> f.snapshot == g.snapshot)
  {
    hide Accepted, Views, Floors;
    StepLists(N, run, i);
    StepLists(N, run, j);
    var n := run[i].floors[a].namespace;
    FloorEntriesMonotone(N, run, i, j, n);
    b :| 0 <= b < |run[j].decision.value.views| && run[j].decision.value.views[b].namespace == n;
  }

  /** Two floors of one version agree on the root exactly when the first floor's own view has its root. */
  lemma FloorRootsAgree(N: Naming, run: seq<Step>, i: nat, j: nat, a: nat, b: nat)
    requires Accepted(N, run) && i < j < |run| && a < |run[i].floors| && b < |run[j].floors|
    requires run[i].floors[a].namespace == run[j].floors[b].namespace
    requires run[i].floors[a].version == run[j].floors[b].version
    ensures a < |run[i].decision.value.views|
    ensures var w := run[i].decision.value.views[a];
            && w.namespace == run[i].floors[a].namespace
            && (run[i].floors[a].root == run[j].floors[b].root <==> w.root == run[i].floors[a].root)
  {
    hide Accepted, Views, Floors;
    StepLists(N, run, i);
    StepLists(N, run, j);
    FloorEntriesMonotone(N, run, i, j, run[i].floors[a].namespace);
  }

  // ----- external head floors -----

  /** The floor of each step names the run's own heads at that step or just before it. */
  lemma HeadFloorIsOwnHead(N: Naming, run: seq<Step>, i: nat)
    requires Accepted(N, run) && i < |run|
    ensures run[i].headFloor.mission == run[i].checkpoint.body.mission
    ensures var f, c := run[i].headFloor, run[i].checkpoint;
            || (&& f.sequence == i && f.head == RefOf(c)
                && f.eventSeq == c.body.eventSeq && f.missionHead == RefOf(c))
            || (&& f.sequence == i - 1 && f.head == c.body.previous
                && f.eventSeq == c.body.eventSeq - 1 && f.missionHead == c.body.previousMission)
  {
    hide StepAccepted;
    GlobalChain(N, run, i);
    assert StepAccepted(N, run[..i], run[i]);
    AcceptedFloor(N, run[..i], run[i]);
  }

  lemma AcceptedFloor(N: Naming, history: seq<Step>, s: Step)
    requires StepAccepted(N, history, s)
    ensures s.headFloor.mission == s.checkpoint.body.mission
    ensures var f, c := s.headFloor, s.checkpoint;
            || (&& f.sequence == c.body.sequence && f.head == RefOf(c)
                && f.eventSeq == c.body.eventSeq && f.missionHead == RefOf(c))
            || (&& f.sequence == c.body.sequence - 1 && f.head == c.body.previous
                && f.eventSeq == c.body.eventSeq - 1 && f.missionHead == c.body.previousMission)
  {
    hide RevocationAccepted, BindingAccepted, FloorVerdict;
    ForkExclusion(N, s.checkpoint, s.decision, LastGlobal(history), LastMission(history, s.checkpoint.body.mission),
                  s.headFloor, s.policy);
  }

  /** Head floors never go back, and two at one sequence name one checkpoint. */
  lemma HeadFloorsMonotone(N: Naming, run: seq<Step>, i: nat, j: nat)
    requires Accepted(N, run) && i < j < |run|
    ensures run[i].headFloor.sequence <= run[j].headFloor.sequence
    ensures run[i].headFloor.sequence == run[j].headFloor.sequence ==> run[i].headFloor.head == run[j].headFloor.head
  {
    hide Accepted;
    HeadFloorIsOwnHead(N, run, i);
    HeadFloorIsOwnHead(N, run, j);
    GlobalChain(N, run, j);
  }

  /** A step's place in its mission is the number of the mission's steps before it. */
  lemma {:induction false} PlaceInMission(run: seq<Step>, mission: Id, i: nat)
    requires i < |run| && run[i].checkpoint.body.mission == mission
    ensures |MissionSteps(run[..i], mission)| < |MissionSteps(run, mission)|
    ensures MissionSteps(run, mission)[|MissionSteps(run[..i], mission)|] == run[i]
  {
    var last := |run| - 1;
    if i < last {
      PlaceInMission(run[..last], mission, i);
      assert run[..last][..i] == run[..i];
    }
  }

  /** Events of one mission are numbered in the order of the run, the next naming the one before it. */
  lemma MissionOrder(N: Naming, run: seq<Step>, i: nat, j: nat)
    requires Accepted(N, run) && i < j < |run|
    requires run[i].checkpoint.body.mission == run[j].checkpoint.body.mission
    ensures var b, c := run[i].checkpoint.body, run[j].checkpoint.body;
            && b.eventSeq < c.eventSeq
            && (c.eventSeq == b.eventSeq + 1 ==> c.previousMission == RefOf(run[i].checkpoint))
  {
    hide Accepted, MissionSteps;
    var m := run[i].checkpoint.body.mission;
    var k, l := |MissionSteps(run[..i], m)|, |MissionSteps(run[..j], m)|;
    PlaceInMission(run, m, i);
    PlaceInMission(run, m, j);
    PlaceInMission(run[..j], m, i);
    assert run[..j][..i] == run[..i];
    MissionChain(N, run, m, k);
    MissionChain(N, run, m, l);
  }

  /** Within a mission the floors' event numbers never go back, and two at one number name one head. */
  lemma MissionFloorsMonotone(N: Naming, run: seq<Step>, i: nat, j: nat)
    requires Accepted(N, run) && i < j < |run| && run[i].headFloor.mission == run[j].headFloor.mission
    ensures run[i].headFloor.eventSeq <= run[j].headFloor.eventSeq
    ensures run[i].headFloor.eventSeq == run[j].headFloor.eventSeq ==>
              run[i].headFloor.missionHead == run[j].headFloor.missionHead
  {
    hide Accepted;
    HeadFloorIsOwnHead(N, run, i);
    HeadFloorIsOwnHead(N, run, j);
    MissionOrder(N, run, i, j);
  }

  // ----- no forks -----

  lemma CheckpointsValid(N: Naming, run: seq<Step>, i: nat)
    requires Accepted(N, run) && i < |run|
    ensures ValidCheckpoint(N, run[i].checkpoint)
  {
    assert StepAccepted(N, run[..i], run[i]);
  }

  /** Two accepted runs whose last checkpoints have one identity have one history. */
  lemma {:induction false} HeadDeterminesHistory(N: Naming, a: seq<Step>, b: seq<Step>)
    requires Accepted(N, a) && Accepted(N, b) && a != [] && b != []
    requires a[|a| - 1].checkpoint.id == b[|b| - 1].checkpoint.id
    ensures || NamingCollision(N)
            || (&& |a| == |b|
                && (forall i | 0 <= i < |a| :: a[i].checkpoint.body == b[i].checkpoint.body)
                && (forall i | 0 <= i < |a| - 1 :: RefOf(a[i].checkpoint) == RefOf(b[i].checkpoint)))
  {
    hide StepAccepted;
    var m, n := |a| - 1, |b| - 1;
    CheckpointsValid(N, a, m);
    CheckpointsValid(N, b, n);
    SameIdSameBody(N, a[m].checkpoint, b[n].checkpoint);
    if !NamingCollision(N) {
      GlobalChain(N, a, m);
      GlobalChain(N, b, n);
      assert m == n;
      if m > 0 {
        PrefixAccepted(N, a, m);
        PrefixAccepted(N, b, n);
        assert RefOf(a[m - 1].checkpoint) == RefOf(b[m - 1].checkpoint);
        HeadDeterminesHistory(N, a[..m], b[..m]);
        SameUpTo(a, b, m);
      }
    }
  }

  /** A floor that names a checkpoint names the run's checkpoint of that sequence. */
  lemma FloorNames(N: Naming, run: seq<Step>, i: nat)
    requires Accepted(N, run) && i < |run| && run[i].headFloor.sequence >= 0
    ensures run[i].headFloor.sequence <= i
    ensures run[i].headFloor.head == RefOf(run[run[i].headFloor.sequence].checkpoint)
  {
    hide Accepted;
    HeadFloorIsOwnHead(N, run, i);
    GlobalChain(N, run, i);
  }

  /**
   No forks across runs: two runs that were once held to a floor with the same head have
   one history up to that head, whatever they did afterwards.
   */
  lemma FloorDeterminesHistory(N: Naming, a: seq<Step>, b: seq<Step>, i: nat, j: nat)
    requires Accepted(N, a) && Accepted(N, b) && i < |a| && j < |b|
    requires a[i].headFloor.sequence >= 0 && b[j].headFloor.sequence >= 0
    requires a[i].headFloor.head == b[j].headFloor.head
    ensures var k := a[i].headFloor.sequence;
            || NamingCollision(N)
            || (&& b[j].headFloor.sequence == k && k < |a| && k < |b|
                && forall m | 0 <= m <= k ::
                     a[m].checkpoint.body == b[m].checkpoint.body && RefOf(a[m].checkpoint) == RefOf(b[m].checkpoint))
  {
    hide Accepted, NamingCollision;
    FloorNames(N, a, i);
    FloorNames(N, b, j);
    var k, l := a[i].headFloor.sequence, b[j].headFloor.sequence;
    PrefixAccepted(N, a, k + 1);
    PrefixAccepted(N, b, l + 1);
    var a', b' := a[..k + 1], b[..l + 1];
    HeadDeterminesHistory(N, a', b');
    if !NamingCollision(N) {
      forall m | 0 <= m <= k
        ensures a[m].checkpoint.body == b[m].checkpoint.body && RefOf(a[m].checkpoint) == RefOf(b[m].checkpoint)
      {
        assert a'[m] == a[m] && b'[m] == b[m];
      }
    }
  }

  lemma SameUpTo(a: seq<Step>, b: seq<Step>, m: nat)
    requires 0 < m < |a| && |a| == |b| == m + 1
    requires a[m].checkpoint.body == b[m].checkpoint.body && RefOf(a[m - 1].checkpoint) == RefOf(b[m - 1].checkpoint)
    requires forall i | 0 <= i < m :: a[..m][i].checkpoint.body == b[..m][i].checkpoint.body
    requires forall i | 0 <= i < m - 1 :: RefOf(a[..m][i].checkpoint) == RefOf(b[..m][i].checkpoint)
    ensures forall i | 0 <= i < |a| :: a[i].checkpoint.body == b[i].checkpoint.body
    ensures forall i | 0 <= i < |a| - 1 :: RefOf(a[i].checkpoint) == RefOf(b[i].checkpoint)
  {
    forall i | 0 <= i < m
      ensures a[i].checkpoint.body == b[i].checkpoint.body && RefOf(a[i].checkpoint) == RefOf(b[i].checkpoint)
    {
      assert a[..m][i] == a[i] && b[..m][i] == b[i];
    }
  }

  // ----- a run in which two floors of one version differ in root -----

  const SAMPLE_VIEW: View := View(5, 2, 1, 9, 0, 0, 1000)

  /** The heads before step `k` of one mission. */
  function SampleBefore(N: Naming, k: nat): (HeadRef, HeadRef)
    decreases k, 0
  {
    if k == 0 then
      (HeadRef(N.globalGenesis(1, 1), None, None, None), HeadRef(N.missionGenesis(1, 1, 7), None, None, None))
    else
      var head := HeadRef(N.checkpointId(SampleBody(N, k - 1)), Some(20), Some(1), Some(2));
      (head, head)
  }

  function SampleBody(N: Naming, k: nat): Body
    decreases k, 1
  {
    var (previous, previousMission) := SampleBefore(N, k);
    Body(1, 1, k, previous, previousMission, 7, 8, 9, k, N.eventGenesis + k + 1, 40 + k, 50, 3, 3,
         Interval(2 * k + 1, 2 * k + 1), 4, 4, 0)
  }

  /** Step `k`; its head floor is the catalog state just before it. */
  function SampleStep(N: Naming, k: nat, floorRoot: int): Step {
    var (previous, previousMission) := SampleBefore(N, k);
    var d := Decision(40 + k, 1, 1, 7, 8, 9, k - 1, previous, k - 1, N.eventGenesis + k, 6, N.eventGenesis + k + 1,
                      Interval(2 * k, 2 * k), 4, 4, [SAMPLE_VIEW]);
    var b := SampleBody(N, k);
    Step(AuthDecision(d, 50, 3, 3, 3), AuthCheckpoint(N.checkpointId(b), b, 20, 1, 1, 2),
         Event(7, k, 6, 8, 9, 2 * k, N.eventGenesis + k, N.eventGenesis + k + 1),
         HeadFloor(1, 1, k - 1, previous, 7, k - 1, previousMission),
         [RevocationFloor(1, 1, 4, 5, floorRoot, 1, 9)],
         Policy(4, 4, 0, 4, 4, 0, {5}))
  }

  lemma SampleMaps(N: Naming, k: nat, floorRoot: int)
    ensures Views(SampleStep(N, k, floorRoot)) == map[5 := SAMPLE_VIEW]
    ensures Floors(SampleStep(N, k, floorRoot)) == map[5 := RevocationFloor(1, 1, 4, 5, floorRoot, 1, 9)]
    ensures SAMPLE_VIEW in SampleStep(N, k, floorRoot).decision.value.views
  {
    var v, f := [SAMPLE_VIEW], SampleStep(N, k, floorRoot).floors;
    assert v[..0] == [] && f[..0] == [];
    assert ByNamespace(v) == ByNamespace([])[5 := SAMPLE_VIEW];
    assert FloorsByNamespace(f) == FloorsByNamespace([])[5 := f[0]];
  }

  lemma SampleFirst(N: Naming)
    ensures StepAccepted(N, [], SampleStep(N, 0, 1))
  {
    SampleMaps(N, 0, 1);
  }

  lemma SampleSecondRevocation(N: Naming)
    ensures var s, t := SampleStep(N, 0, 1), SampleStep(N, 1, 2);
            RevocationAccepted(Some((s.decision, s.checkpoint)), t.decision, t.floors, t.policy)
  {
    SampleMaps(N, 0, 1);
    SampleMaps(N, 1, 2);
  }

  lemma SampleSecond(N: Naming)
    requires N.checkpointId(SampleBody(N, 0)) !in {N.globalGenesis(1, 1), N.missionGenesis(1, 1, 7)}
    ensures StepAccepted(N, [SampleStep(N, 0, 1)], SampleStep(N, 1, 2))
  {
    hide RevocationAccepted;
    SampleMaps(N, 1, 2);
    SampleHistory(N);
    SampleSecondRevocation(N);
  }

  lemma SampleHistory(N: Naming)
    ensures MissionSteps([SampleStep(N, 0, 1)], 7) == [SampleStep(N, 0, 1)]
  {
    var history := [SampleStep(N, 0, 1)];
    assert history[..0] == [];
    assert MissionSteps(history, 7) == MissionSteps([], 7) + history;
  }

  /**
   Equal versions do not force equal roots: an accepted run with floors at roots 1 and 2,
   whatever the identities, as long as its first checkpoint's is no genesis identity.
   */
  lemma FloorRootsMayDiffer(N: Naming)
    requires N.checkpointId(SampleBody(N, 0)) !in {N.globalGenesis(1, 1), N.missionGenesis(1, 1, 7)}
    ensures var run := [SampleStep(N, 0, 1), SampleStep(N, 1, 2)];
            && Accepted(N, run) && |run[0].floors| == |run[1].floors| == 1
            && run[0].floors[0].namespace == run[1].floors[0].namespace
            && run[0].floors[0].version == run[1].floors[0].version
            && run[0].floors[0].root < run[1].floors[0].root
  {
    hide StepAccepted;
    var run := [SampleStep(N, 0, 1), SampleStep(N, 1, 2)];
    SampleFirst(N);
    SampleSecond(N);
    assert run[..0] == [] && run[..1] == [SampleStep(N, 0, 1)];
  }
}
