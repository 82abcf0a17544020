/**
 The recovery-fence experiment of scripts/replay_recovery_fence_experiment.py: an old
 writer races a recovering one. The script enumerates a few finite cases; here the
 agreement of its two calculations and the exact violations hold for every number of
 reads and every schedule.
 */
module RecoveryFence {
  import opened Common
  import opened Interleavings

  datatype Policy = Policy(readCount: nat, publicationFenced: bool, localFence: bool, effectFence: bool)

  datatype Action =
    | OldPublish | OldReply | Read(i: nat) | OldLocalCommit | OldEffect
    | Fence | RecoverRead | NewPublish

  datatype Writer = Old | New

  datatype Violation =
    | PublicationAfterFence
    | PublicationMissingFromCut
    | LocalCommitAfterFence
    | EffectAfterFence

  function Reads(n: nat): (r: seq<Action>)
    ensures |r| == n && forall i | 0 <= i < n :: r[i] == Read(i)
  {
    if n == 0 then [] else Reads(n - 1) + [Read(n - 1)]
  }

  function OldChain(p: Policy): (c: seq<Action>)
    ensures |c| == p.readCount + 4
    ensures c[0] == OldPublish && c[1] == OldReply
    ensures forall i | 0 <= i < p.readCount :: c[2 + i] == Read(i)
    ensures c[p.readCount + 2] == OldLocalCommit && c[p.readCount + 3] == OldEffect
  {
    [OldPublish, OldReply] + Reads(p.readCount) + [OldLocalCommit, OldEffect]
  }

  const NEW_CHAIN: seq<Action> := [Fence, RecoverRead, NewPublish]

  // ----- the operational replay -----

  datatype Sim = Sim(epoch: nat, ledger: seq<Writer>, cut: Option<seq<Writer>>,
                     published: bool, replied: bool, readsOk: bool, committed: bool, effect: bool,
                     violations: set<Violation>)

  const START: Sim := Sim(0, [], None, false, false, true, false, false, {})

  function Noted(vs: set<Violation>, seen: bool, v: Violation): set<Violation> {
    if seen then vs + {v} else vs
  }

  /** One action; None is the refusal of a recovery that publishes before fence and read. */
  function Act(p: Policy, s: Sim, a: Action): Option<Sim> {
    match a
    case Fence => Some(s.(epoch := 1))
    case OldPublish =>
      if !p.publicationFenced || s.epoch == 0 then
        Some(s.(ledger := s.ledger + [Old], published := true,
                violations := Noted(Noted(s.violations, s.epoch != 0, PublicationAfterFence),
                                    s.cut.Some? && Old !in s.cut.value, PublicationMissingFromCut)))
      else Some(s)
    case OldReply => Some(s.(replied := s.published))
    case Read(_) => Some(s.(readsOk := s.readsOk && s.replied && s.epoch == 0))
    case OldLocalCommit =>
      var ok := s.replied && s.readsOk && (!p.localFence || s.epoch == 0);
      Some(s.(committed := ok, violations := Noted(s.violations, ok && s.epoch != 0, LocalCommitAfterFence)))
    case OldEffect =>
      var ok := s.committed && (!p.effectFence || s.epoch == 0);
      Some(s.(effect := ok, violations := Noted(s.violations, ok && s.epoch != 0, EffectAfterFence)))
    case RecoverRead => Some(s.(cut := Some(s.ledger)))
    case NewPublish => if s.epoch != 1 || s.cut.None? then None else Some(s.(ledger := s.ledger + [New]))
  }

  function Replay(p: Policy, schedule: seq<Action>): Option<Sim> {
    if schedule == [] then Some(START) else
    var n := |schedule| - 1;
    var before := Replay(p, schedule[..n]);
    if before.None? then None else Act(p, before.value, schedule[n])
  }

  lemma ReplayStart(p: Policy)
    ensures Replay(p, []) == Some(START)
  {
  }

  lemma ReplayNext(p: Policy, schedule: seq<Action>, i: nat)
    requires i < |schedule|
    ensures Replay(p, schedule[..i + 1])
            == var before := Replay(p, schedule[..i]); if before.None? then None else Act(p, before.value, schedule[i])
  {
    assert schedule[..i + 1][..i] == schedule[..i];
  }

  /** Whether an action takes effect. */
  predicate Takes(p: Policy, s: Sim, a: Action) {
    match a
    case OldPublish => !p.publicationFenced || s.epoch == 0
    case OldReply => s.published
    case Read(_) => s.replied && s.epoch == 0
    case OldLocalCommit => s.replied && s.readsOk && (!p.localFence || s.epoch == 0)
    case OldEffect => s.committed && (!p.effectFence || s.epoch == 0)
    case _ => true
  }

  /** One line of the step record: the epoch is the one after the action. */
  datatype Entry = Entry(action: Action, accepted: bool, epoch: nat)

  function Trace(p: Policy, schedule: seq<Action>): seq<Entry>
    requires Replay(p, schedule).Some?
  {
    if schedule == [] then [] else
    var n := |schedule| - 1;
    var before := Replay(p, schedule[..n]).value;
    Trace(p, schedule[..n]) + [Entry(schedule[n], Takes(p, before, schedule[n]), Replay(p, schedule).value.epoch)]
  }

  lemma TraceNext(p: Policy, schedule: seq<Action>, i: nat)
    requires i < |schedule| && Replay(p, schedule[..i + 1]).Some?
    ensures Replay(p, schedule[..i]).Some?
    ensures Trace(p, schedule[..i + 1])
            == Trace(p, schedule[..i]) + [Entry(schedule[i], Takes(p, Replay(p, schedule[..i]).value, schedule[i]),
                                                Replay(p, schedule[..i + 1]).value.epoch)]
  {
    assert schedule[..i + 1][..i] == schedule[..i];
  }

  method Simulate(p: Policy, schedule: seq<Action>) returns (r: Option<Sim>, steps: seq<Entry>)
    ensures r == Replay(p, schedule)
    ensures r.Some? ==> steps == Trace(p, schedule)
  {
    hide Replay, Trace;
    steps := [];
    TraceStart(p, schedule);
    ReplayStart(p);
    assert schedule[..0] == [];
    var s := START;
    for i := 0 to |schedule|
      invariant Replay(p, schedule[..i]) == Some(s)
      invariant steps == Trace(p, schedule[..i])
    {
      ReplayNext(p, schedule, i);
      var accepted := true;
      match schedule[i] {
        case Fence => s := s.(epoch := 1);
        case OldPublish =>
          accepted := !p.publicationFenced || s.epoch == 0;
          if accepted {
            s := s.(ledger := s.ledger + [Old], published := true);
            if s.epoch != 0 { s := s.(violations := s.violations + {PublicationAfterFence}); }
            if s.cut.Some? && Old !in s.cut.value {
              s := s.(violations := s.violations + {PublicationMissingFromCut});
            }
          }
        case OldReply =>
          accepted := s.published;
          s := s.(replied := accepted);
        case Read(_) =>
          accepted := s.replied && s.epoch == 0;
          s := s.(readsOk := s.readsOk && accepted);
        case OldLocalCommit =>
          accepted := s.replied && s.readsOk && (!p.localFence || s.epoch == 0);
          s := s.(committed := accepted);
          if accepted && s.epoch != 0 { s := s.(violations := s.violations + {LocalCommitAfterFence}); }
        case OldEffect =>
          accepted := s.committed && (!p.effectFence || s.epoch == 0);
          s := s.(effect := accepted);
          if accepted && s.epoch != 0 { s := s.(violations := s.violations + {EffectAfterFence}); }
        case RecoverRead => s := s.(cut := Some(s.ledger));
        case NewPublish =>
          if s.epoch != 1 || s.cut.None? {
            Refused(p, schedule, i + 1);
            return None, steps;
          }
          s := s.(ledger := s.ledger + [New]);
      }
      TraceNext(p, schedule, i);
      steps := steps + [Entry(schedule[i], accepted, s.epoch)];
    }
    assert schedule[..|schedule|] == schedule;
    r := Some(s);
  }

  lemma {:induction false} Refused(p: Policy, schedule: seq<Action>, i: nat)
    requires i <= |schedule| && Replay(p, schedule[..i]).None?
    ensures Replay(p, schedule).None?
    decreases |schedule|
  {
    if i < |schedule| {
      assert schedule[..|schedule| - 1][..i] == schedule[..i];
      Refused(p, schedule[..|schedule| - 1], i);
    } else {
      assert schedule[..i] == schedule;
    }
  }

  // ----- the positional calculation -----

  ghost predicate IsSchedule(p: Policy, s: seq<Action>) {
    Interleaving(s, OldChain(p), NEW_CHAIN)
  }

  function Pos(s: seq<Action>, a: Action): int {
    if a in s then Index(s, a) else -1
  }

  predicate Publication(p: Policy, s: seq<Action>) {
    !p.publicationFenced || Pos(s, OldPublish) < Pos(s, Fence)
  }

  predicate Commit(p: Policy, s: seq<Action>) {
    && Publication(p, s)
    && (forall i | 0 <= i < p.readCount :: Pos(s, Read(i)) < Pos(s, Fence))
    && (!p.localFence || Pos(s, OldLocalCommit) < Pos(s, Fence))
  }

  predicate Effect(p: Policy, s: seq<Action>) {
    Commit(p, s) && (!p.effectFence || Pos(s, OldEffect) < Pos(s, Fence))
  }

  /** The action at which a violation shows, and whether it does. */
  function Culprit(v: Violation): Action {
    match v
    case PublicationAfterFence => OldPublish
    case PublicationMissingFromCut => OldPublish
    case LocalCommitAfterFence => OldLocalCommit
    case EffectAfterFence => OldEffect
  }

  predicate Fails(p: Policy, s: seq<Action>, v: Violation) {
    match v
    case PublicationAfterFence => Publication(p, s) && Pos(s, OldPublish) > Pos(s, Fence)
    case PublicationMissingFromCut => Publication(p, s) && Pos(s, OldPublish) > Pos(s, RecoverRead)
    case LocalCommitAfterFence => Commit(p, s) && Pos(s, OldLocalCommit) > Pos(s, Fence)
    case EffectAfterFence => Effect(p, s) && Pos(s, OldEffect) > Pos(s, Fence)
  }

  function Cut(p: Policy, s: seq<Action>): seq<Writer> {
    if Publication(p, s) && Pos(s, OldPublish) < Pos(s, RecoverRead) then [Old] else []
  }

  /** What the ledger holds after `j` actions: each publication that took place, in order. */
  function LedgerAt(p: Policy, s: seq<Action>, j: nat): seq<Writer> {
    var old_, new_ := Publication(p, s) && Pos(s, OldPublish) < j, Pos(s, NewPublish) < j;
    if old_ && new_ then (if Pos(s, OldPublish) < Pos(s, NewPublish) then [Old, New] else [New, Old])
    else if old_ then [Old] else if new_ then [New] else []
  }

  // ----- what a schedule is like -----

  lemma ChainsDistinct(p: Policy)
    ensures NoRepeats(OldChain(p)) && NoRepeats(NEW_CHAIN) && Disjoint(OldChain(p), NEW_CHAIN)
  {
    var c := OldChain(p);
    forall i | 0 <= i < |c| ensures c[i] !in NEW_CHAIN { OldAt(p, i); }
    forall i, j | 0 <= i < j < |c| ensures c[i] != c[j] { OldAt(p, i); OldAt(p, j); }
  }

  lemma OldAt(p: Policy, i: nat)
    requires i < |OldChain(p)|
    ensures OldChain(p)[i] == if i == 0 then OldPublish else if i == 1 then OldReply
                              else if i < p.readCount + 2 then Read(i - 2)
                              else if i == p.readCount + 2 then OldLocalCommit else OldEffect
  {
    if 2 <= i < p.readCount + 2 { assert OldChain(p)[2 + (i - 2)] == Read(i - 2); }
  }

  /** The order facts every schedule satisfies. */
  ghost predicate Ordered(p: Policy, s: seq<Action>) {
    && NoRepeats(s)
    && OldPublish in s && OldReply in s && OldLocalCommit in s && OldEffect in s
    && Fence in s && RecoverRead in s && NewPublish in s
    && (forall i: nat :: Read(i) in s <==> i < p.readCount)
    && Pos(s, OldPublish) < Pos(s, OldReply) < Pos(s, OldLocalCommit) < Pos(s, OldEffect)
    && (forall i | 0 <= i < p.readCount :: Pos(s, OldReply) < Pos(s, Read(i)) < Pos(s, OldLocalCommit))
    && Pos(s, Fence) < Pos(s, RecoverRead) < Pos(s, NewPublish)
  }

  lemma OldOrdered(p: Policy, s: seq<Action>)
    requires IsSchedule(p, s) && NoRepeats(s)
    ensures OldPublish in s && OldReply in s && OldLocalCommit in s && OldEffect in s
    ensures Pos(s, OldPublish) < Pos(s, OldReply) < Pos(s, OldLocalCommit) < Pos(s, OldEffect)
    ensures forall i | 0 <= i < p.readCount :: Pos(s, OldReply) < Pos(s, Read(i)) < Pos(s, OldLocalCommit)
  {
    hide NoRepeats, Interleaving, Index;
    var c := OldChain(p);
    PositionsOrdered(s, c, NEW_CHAIN, 0, 1);
    PositionsOrdered(s, c, NEW_CHAIN, 1, p.readCount + 2);
    PositionsOrdered(s, c, NEW_CHAIN, p.readCount + 2, p.readCount + 3);
    forall i | 0 <= i < p.readCount ensures Pos(s, OldReply) < Pos(s, Read(i)) < Pos(s, OldLocalCommit) {
      ReadOrdered(p, s, i);
    }
  }

  lemma ReadOrdered(p: Policy, s: seq<Action>, i: nat)
    requires IsSchedule(p, s) && NoRepeats(s) && i < p.readCount
    ensures Pos(s, OldReply) < Pos(s, Read(i)) < Pos(s, OldLocalCommit)
  {
    hide NoRepeats, Interleaving, Index, OldChain;
    var c := OldChain(p);
    assert c[2 + i] == Read(i);
    PositionsOrdered(s, c, NEW_CHAIN, 1, 2 + i);
    PositionsOrdered(s, c, NEW_CHAIN, 2 + i, p.readCount + 2);
  }

  lemma SchedulesOrdered(p: Policy, s: seq<Action>)
    requires IsSchedule(p, s)
    ensures Ordered(p, s)
  {
    hide NoRepeats, Interleaving, OldChain;
    ChainsDistinct(p);
    DistinctEvents(s, OldChain(p), NEW_CHAIN);
    OldOrdered(p, s);
    Swap(s, OldChain(p), NEW_CHAIN);
    PositionsOrdered(s, NEW_CHAIN, OldChain(p), 0, 1);
    PositionsOrdered(s, NEW_CHAIN, OldChain(p), 1, 2);
    forall i: nat ensures Read(i) in s <==> i < p.readCount {
      ReadScheduled(p, s, i);
    }
  }

  lemma ReadScheduled(p: Policy, s: seq<Action>, i: nat)
    requires IsSchedule(p, s)
    ensures Read(i) in s <==> i < p.readCount
  {
    var c := OldChain(p);
    Members(s, c, NEW_CHAIN, Read(i));
    if i < p.readCount { assert c[2 + i] == Read(i); }
    if Read(i) in c {
      var k :| 0 <= k < |c| && c[k] == Read(i);
      OldAt(p, k);
    }
  }

  // ----- agreement -----

  /** The state after `j` actions, said by positions alone. */
  ghost predicate Agrees(p: Policy, s: seq<Action>, j: nat, st: Sim) {
    && st.epoch == (if Pos(s, Fence) < j then 1 else 0)
    && st.published == (Pos(s, OldPublish) < j && Publication(p, s))
    && st.replied == (Pos(s, OldReply) < j && Publication(p, s))
    && st.readsOk == (forall i | 0 <= i < p.readCount && Pos(s, Read(i)) < j ::
                        Publication(p, s) && Pos(s, Read(i)) < Pos(s, Fence))
    && st.committed == (Pos(s, OldLocalCommit) < j && Commit(p, s))
    && st.effect == (Pos(s, OldEffect) < j && Effect(p, s))
    && st.cut == (if Pos(s, RecoverRead) < j then Some(Cut(p, s)) else None)
    && st.ledger == LedgerAt(p, s, j)
    && (forall v :: v in st.violations <==> Pos(s, Culprit(v)) < j && Fails(p, s, v))
  }

  /** After action `j`, an action lies in the past when it did before or is that action. */
  lemma PastGrows(s: seq<Action>, j: nat)
    requires NoRepeats(s) && j < |s|
    ensures forall a | a in s :: Pos(s, a) == j <==> a == s[j]
  {
    forall a | a in s ensures Pos(s, a) == j <==> a == s[j] {
      IndexIs(s, j);
      assert s[Index(s, a)] == a;
    }
  }

  lemma StepFence(p: Policy, s: seq<Action>, j: nat, st: Sim)
    requires Ordered(p, s) && j < |s| && Agrees(p, s, j, st) && s[j].Fence?
    ensures Act(p, st, s[j]).Some? && Agrees(p, s, j + 1, Act(p, st, s[j]).value)
  {
    hide Pos, NoRepeats, Publication, Commit, Effect, Cut, Fails;
    PastGrows(s, j);
  }

  lemma StepOldPublish(p: Policy, s: seq<Action>, j: nat, st: Sim)
    requires Ordered(p, s) && j < |s| && Agrees(p, s, j, st) && s[j].OldPublish?
    ensures Act(p, st, s[j]).Some? && Agrees(p, s, j + 1, Act(p, st, s[j]).value)
  {
    hide Pos, NoRepeats;
    PastGrows(s, j);
  }

  lemma StepOldReply(p: Policy, s: seq<Action>, j: nat, st: Sim)
    requires Ordered(p, s) && j < |s| && Agrees(p, s, j, st) && s[j].OldReply?
    ensures Act(p, st, s[j]).Some? && Agrees(p, s, j + 1, Act(p, st, s[j]).value)
  {
    hide Pos, NoRepeats, Publication, Commit, Effect, Cut, Fails;
    PastGrows(s, j);
  }

  lemma StepRead(p: Policy, s: seq<Action>, j: nat, st: Sim)
    requires Ordered(p, s) && j < |s| && Agrees(p, s, j, st) && s[j].Read?
    ensures Act(p, st, s[j]).Some? && Agrees(p, s, j + 1, Act(p, st, s[j]).value)
  {
    hide Pos, NoRepeats, Publication, Commit, Effect, Cut;
    PastGrows(s, j);
  }

  lemma StepOldLocalCommit(p: Policy, s: seq<Action>, j: nat, st: Sim)
    requires Ordered(p, s) && j < |s| && Agrees(p, s, j, st) && s[j].OldLocalCommit?
    ensures Act(p, st, s[j]).Some? && Agrees(p, s, j + 1, Act(p, st, s[j]).value)
  {
    hide Pos, NoRepeats, Publication, Effect, Cut;
    PastGrows(s, j);
  }

  lemma StepOldEffect(p: Policy, s: seq<Action>, j: nat, st: Sim)
    requires Ordered(p, s) && j < |s| && Agrees(p, s, j, st) && s[j].OldEffect?
    ensures Act(p, st, s[j]).Some? && Agrees(p, s, j + 1, Act(p, st, s[j]).value)
  {
    hide Pos, NoRepeats, Publication, Commit, Cut;
    PastGrows(s, j);
  }

  lemma StepRecovery(p: Policy, s: seq<Action>, j: nat, st: Sim)
    requires Ordered(p, s) && j < |s| && Agrees(p, s, j, st) && (s[j].RecoverRead? || s[j].NewPublish?)
    ensures Act(p, st, s[j]).Some? && Agrees(p, s, j + 1, Act(p, st, s[j]).value)
  {
    hide Pos, NoRepeats, Publication, Commit, Effect, Fails;
    PastGrows(s, j);
  }

  lemma AgreesAtStart(p: Policy, s: seq<Action>)
    requires Ordered(p, s)
    ensures Agrees(p, s, 0, START)
  {
    hide Publication, Commit, Effect, Cut, Fails;
  }

  lemma {:induction false} AgreesAfter(p: Policy, s: seq<Action>, j: nat)
    requires Ordered(p, s) && j <= |s|
    ensures Replay(p, s[..j]).Some? && Agrees(p, s, j, Replay(p, s[..j]).value)
  {
    hide Agrees, Ordered, Replay, Act;
    if j == 0 {
      assert s[..0] == [];
      ReplayStart(p);
      AgreesAtStart(p, s);
    } else {
      AgreesAfter(p, s, j - 1);
      ReplayNext(p, s, j - 1);
      var st := Replay(p, s[..j - 1]).value;
      match s[j - 1] {
        case Fence => StepFence(p, s, j - 1, st);
        case OldPublish => StepOldPublish(p, s, j - 1, st);
        case OldReply => StepOldReply(p, s, j - 1, st);
        case Read(_) => StepRead(p, s, j - 1, st);
        case OldLocalCommit => StepOldLocalCommit(p, s, j - 1, st);
        case OldEffect => StepOldEffect(p, s, j - 1, st);
        case RecoverRead => StepRecovery(p, s, j - 1, st);
        case NewPublish => StepRecovery(p, s, j - 1, st);
      }
    }
  }

  /** The two calculations agree on every schedule, and no schedule is refused. */
  lemma CalculationsAgree(p: Policy, s: seq<Action>)
    requires IsSchedule(p, s)
    ensures Replay(p, s).Some?
    ensures var r := Replay(p, s).value;
            && r.published == Publication(p, s) && r.committed == Commit(p, s) && r.effect == Effect(p, s)
            && r.cut == Some(Cut(p, s))
            && r.ledger == (if !Publication(p, s) then [New]
                            else if Pos(s, OldPublish) < Pos(s, NewPublish) then [Old, New] else [New, Old])
            && (forall v :: v in r.violations <==> Fails(p, s, v))
  {
    hide Replay, Publication, Commit, Effect, Cut, Fails;
    SchedulesOrdered(p, s);
    AgreesAfter(p, s, |s|);
    assert s[..|s|] == s;
  }

  /** Whether an action takes effect, by positions alone. */
  predicate TakesAt(p: Policy, s: seq<Action>, a: Action) {
    match a
    case OldPublish => Publication(p, s)
    case OldReply => Publication(p, s)
    case Read(_) => Publication(p, s) && Pos(s, a) < Pos(s, Fence)
    case OldLocalCommit => Commit(p, s)
    case OldEffect => Effect(p, s)
    case _ => true
  }

  lemma TakesAgrees(p: Policy, s: seq<Action>, j: nat, st: Sim)
    requires Ordered(p, s) && j < |s| && Agrees(p, s, j, st)
    ensures Takes(p, st, s[j]) == TakesAt(p, s, s[j])
  {
    hide Pos, NoRepeats, Cut, Fails;
    PastGrows(s, j);
  }

  lemma {:induction false} TraceAgreesAt(p: Policy, s: seq<Action>, j: nat, k: nat)
    requires Ordered(p, s) && k < j <= |s| && Replay(p, s[..j]).Some?
    ensures |Trace(p, s[..j])| == j
    ensures Trace(p, s[..j])[k] == Entry(s[k], TakesAt(p, s, s[k]), if Pos(s, Fence) <= k then 1 else 0)
    decreases j
  {
    hide Ordered, Replay, Takes, TakesAt, Trace;
    TraceNext(p, s, j - 1);
    if k < j - 1 {
      TraceAgreesAt(p, s, j - 1, k);
    } else {
      AgreesAfter(p, s, j - 1);
      AgreesAfter(p, s, j);
      TakesAgrees(p, s, k, Replay(p, s[..k]).value);
      if k > 0 { TraceAgreesAt(p, s, k, 0); } else { TraceStart(p, s); }
    }
  }

  lemma TraceStart(p: Policy, s: seq<Action>)
    ensures Replay(p, s[..0]).Some? && Trace(p, s[..0]) == []
  {
  }

  /** The step record, too, is what the positions say, line by line. */
  lemma TraceAgrees(p: Policy, s: seq<Action>, k: nat)
    requires IsSchedule(p, s) && k < |s|
    ensures Replay(p, s).Some? && |Trace(p, s)| == |s|
    ensures Trace(p, s)[k] == Entry(s[k], TakesAt(p, s, s[k]), if Pos(s, Fence) <= k then 1 else 0)
  {
    hide Replay, TakesAt, Trace, Ordered;
    CalculationsAgree(p, s);
    SchedulesOrdered(p, s);
    assert s[..|s|] == s;
    TraceAgreesAt(p, s, |s|, k);
  }

  /** The record up to a violation's action shows it: an old action taking effect after the fence. */
  lemma ViolationShows(p: Policy, s: seq<Action>, v: Violation)
    requires IsSchedule(p, s) && Replay(p, s).Some? && v in Replay(p, s).value.violations
    ensures Culprit(v) in s && Pos(s, Culprit(v)) < |Trace(p, s)|
    ensures Trace(p, s)[Pos(s, Culprit(v))] == Entry(Culprit(v), true, 1)
  {
    hide Replay, Trace;
    CalculationsAgree(p, s);
    SchedulesOrdered(p, s);
    TraceAgrees(p, s, Pos(s, Culprit(v)));
  }

  // ----- exactly which violations a policy admits -----

  function Required(p: Policy): set<Violation> {
    (if p.publicationFenced then {} else {PublicationAfterFence, PublicationMissingFromCut})
    + (if p.localFence then {} else {LocalCommitAfterFence})
    + (if p.effectFence then {} else {EffectAfterFence})
  }

  lemma OnlyRequired(p: Policy, s: seq<Action>, v: Violation)
    requires IsSchedule(p, s) && Fails(p, s, v)
    ensures v in Required(p)
  {
    SchedulesOrdered(p, s);
  }

  /** Both chains up to a point, then the rest of the old one, then the rest of the recovery. */
  function Witness(p: Policy, a: nat, b: nat): seq<Action>
    requires a <= p.readCount + 4 && b <= 3
  {
    OldChain(p)[..a] + NEW_CHAIN[..b] + OldChain(p)[a..] + NEW_CHAIN[b..]
  }

  lemma WitnessScheduled(p: Policy, a: nat, b: nat)
    requires a <= p.readCount + 4 && b <= 3
    ensures IsSchedule(p, Witness(p, a, b)) && NoRepeats(Witness(p, a, b))
  {
    Spliced(OldChain(p), NEW_CHAIN, a, b);
    ChainsDistinct(p);
    DistinctEvents(Witness(p, a, b), OldChain(p), NEW_CHAIN);
  }

  lemma WitnessOld(p: Policy, a: nat, b: nat, i: nat)
    requires a <= p.readCount + 4 && b <= 3 && i < p.readCount + 4
    ensures Pos(Witness(p, a, b), OldChain(p)[i]) == if i < a then i else i + b
  {
    hide OldChain, NoRepeats;
    WitnessScheduled(p, a, b);
    var k := if i < a then i else i + b;
    assert Witness(p, a, b)[k] == OldChain(p)[i];
    IndexIs(Witness(p, a, b), k);
  }

  lemma WitnessNew(p: Policy, a: nat, b: nat, i: nat)
    requires a <= p.readCount + 4 && b <= 3 && i < 3
    ensures Pos(Witness(p, a, b), NEW_CHAIN[i]) == if i < b then a + i else p.readCount + 4 + i
  {
    hide OldChain, NoRepeats;
    WitnessScheduled(p, a, b);
    var k := if i < b then a + i else p.readCount + 4 + i;
    assert Witness(p, a, b)[k] == NEW_CHAIN[i];
    IndexIs(Witness(p, a, b), k);
  }

  /** Where the old chain is cut decides what still succeeds. */
  lemma WitnessOutcome(p: Policy, a: nat, b: nat)
    requires a <= p.readCount + 4 && 1 <= b <= 3
    ensures var w := Witness(p, a, b);
            && Publication(p, w) == (!p.publicationFenced || a >= 1)
            && (a >= p.readCount + 2 ==> Commit(p, w) == (!p.localFence || a >= p.readCount + 3))
            && (a >= p.readCount + 2 ==> Effect(p, w) == (Commit(p, w) && (!p.effectFence || a >= p.readCount + 4)))
            && (Pos(w, OldPublish) > Pos(w, Fence) <==> a == 0)
            && (Pos(w, OldPublish) > Pos(w, RecoverRead) <==> a == 0 && b >= 2)
            && (Pos(w, OldLocalCommit) > Pos(w, Fence) <==> a <= p.readCount + 2)
            && (Pos(w, OldEffect) > Pos(w, Fence) <==> a <= p.readCount + 3)
  {
    hide Pos, Witness;
    WitnessOld(p, a, b, 0);
    WitnessOld(p, a, b, p.readCount + 2);
    WitnessOld(p, a, b, p.readCount + 3);
    WitnessNew(p, a, b, 0);
    WitnessNew(p, a, b, 1);
    forall i | 0 <= i < p.readCount
      ensures Pos(Witness(p, a, b), Read(i)) == if 2 + i < a then 2 + i else 2 + i + b
    {
      WitnessRead(p, a, b, i);
    }
  }

  lemma WitnessRead(p: Policy, a: nat, b: nat, i: nat)
    requires a <= p.readCount + 4 && b <= 3 && i < p.readCount
    ensures Pos(Witness(p, a, b), Read(i)) == if 2 + i < a then 2 + i else 2 + i + b
  {
    hide Pos, Witness, OldChain;
    WitnessOld(p, a, b, 2 + i);
    assert OldChain(p)[2 + i] == Read(i);
  }

  lemma RequiredReached(p: Policy, v: Violation) returns (s: seq<Action>)
    requires v in Required(p)
    ensures IsSchedule(p, s) && Fails(p, s, v)
  {
    hide Witness, IsSchedule, Publication, Commit, Effect, Pos;
    var a := match v
      case PublicationAfterFence => 0
      case PublicationMissingFromCut => 0
      case LocalCommitAfterFence => p.readCount + 2
      case EffectAfterFence => p.readCount + 3;
    WitnessScheduled(p, a, 2);
    WitnessOutcome(p, a, 2);
    s := Witness(p, a, 2);
  }

  /**
   For every policy and every number of reads, a violation happens on some schedule
   exactly when the fence that prevents it is missing.
   */
  lemma ViolationsExactly(p: Policy, v: Violation)
    ensures v in Required(p) <==>
            exists s :: && s in Schedules(OldChain(p), NEW_CHAIN)
                        && Replay(p, s).Some? && v in Replay(p, s).value.violations
  {
    hide Replay, Schedules, Fails, Required;
    if v in Required(p) {
      var s := RequiredReached(p, v);
      CalculationsAgree(p, s);
      InterleavingScheduled(OldChain(p), NEW_CHAIN, s);
    }
    forall s | s in Schedules(OldChain(p), NEW_CHAIN) && Replay(p, s).Some? && v in Replay(p, s).value.violations
      ensures v in Required(p)
    {
      ScheduleInterleaves(OldChain(p), NEW_CHAIN, s);
      CalculationsAgree(p, s);
      OnlyRequired(p, s, v);
    }
  }

  /** The positive control: no policy blocks an old writer that finishes before the fence. */
  lemma OldWriterCanFinish(p: Policy) returns (s: seq<Action>)
    ensures s in Schedules(OldChain(p), NEW_CHAIN) && Replay(p, s).Some?
    ensures var r := Replay(p, s).value;
            r.published && r.committed && r.effect && r.violations == {}
  {
    hide Replay, Schedules, Witness;
    var n := p.readCount + 4;
    s := Witness(p, n, 1);
    WitnessScheduled(p, n, 1);
    WitnessOutcome(p, n, 1);
    InterleavingScheduled(OldChain(p), NEW_CHAIN, s);
    CalculationsAgree(p, s);
    SchedulesOrdered(p, s);
  }

  /** Every schedule is enumerated once, and there are (reads + 7) choose 3 of them. */
  lemma SchedulesCounted(p: Policy)
    ensures NoRepeats(Schedules(OldChain(p), NEW_CHAIN))
    ensures |Schedules(OldChain(p), NEW_CHAIN)| == Binomial(p.readCount + 7, 3)
  {
    hide OldChain, Schedules, NoRepeats;
    ChainsDistinct(p);
    DisjointNoRepeats(OldChain(p), NEW_CHAIN);
    ScheduleCount(OldChain(p), NEW_CHAIN);
    BinomialSymmetric(p.readCount + 7, 3);
  }
}
