/**
 The resolve command of etzio/kernel/artifact_resolution.py against a shared event log:
 load, check, compare-and-append, and on a stale head reload. Any number of calls and
 of other appenders interleave; a call is three atomic steps on the log.
 */
module ArtifactResolution {
  import opened Common

  datatype Payload =
    | LeaseIssued(lease: Id, issuedAt: int, expiresAt: int)
    | Resolved(lease: Id, resolvedAt: int, resolution: Id)
    | Other(content: Id)

  datatype Event = Event(seq_: nat, decisionTime: int, payload: Payload, prev: Digest)

  type Log = seq<Event>

  /** Event digests and what the reducer says about a log, all outside this model. */
  datatype Kernel = Kernel(digest: Event -> Digest, genesis: Digest,
                           reduces: Log -> bool, candidateRetained: (Log, Id) -> bool, admitted: Log -> bool,
                           active: (Log, Id) -> bool,
                           terminal: Log -> bool, awaiting: Log -> bool)

  ghost predicate EventCollision(K: Kernel) {
    exists a, b: Event :: a != b && K.digest(a) == K.digest(b)
  }

  function Head(K: Kernel, log: Log): Digest {
    if log == [] then K.genesis else K.digest(log[|log| - 1])
  }

  /** The hash chain. */
  ghost predicate Chained(K: Kernel, log: Log) {
    forall i | 0 <= i < |log| :: log[i].seq_ == i && log[i].prev == Head(K, log[..i])
  }

  predicate Resolves(e: Event, lease: Id) {
    e.payload.Resolved? && e.payload.lease == lease
  }

  ghost predicate AtMostOne(log: Log) {
    forall i, j, lease | 0 <= i < |log| && 0 <= j < |log| && Resolves(log[i], lease) && Resolves(log[j], lease) ::
      i == j
  }

  // ----- _existing_resolution -----

  datatype Found = Absent | Unique(at: nat) | Duplicate

  method ExistingResolution(log: Log, lease: Id) returns (f: Found)
    ensures f == Existing(log, lease)
  {
    f := Absent;
    for i := 0 to |log|
      invariant f == Existing(log[..i], lease) && !f.Duplicate?
    {
      assert log[..i + 1][..i] == log[..i];
      if Resolves(log[i], lease) {
        if f.Unique? {
          StillDuplicate(log, lease, i + 1);
          return Duplicate;
        }
        f := Unique(i);
      }
    }
    assert log[..|log|] == log;
  }

  function Existing(log: Log, lease: Id): (f: Found)
    ensures f.Unique? ==> f.at < |log| && Resolves(log[f.at], lease)
  {
    if log == [] then Absent else
    var n := |log| - 1;
    var before := Existing(log[..n], lease);
    if !Resolves(log[n], lease) then before
    else if before.Absent? then Unique(n) else Duplicate
  }

  lemma {:induction false} StillDuplicate(log: Log, lease: Id, i: nat)
    requires i <= |log| && Existing(log[..i], lease).Duplicate?
    ensures Existing(log, lease).Duplicate?
    decreases |log|
  {
    if i < |log| {
      assert log[..|log| - 1][..i] == log[..i];
      StillDuplicate(log[..|log| - 1], lease, i);
    } else {
      assert log[..i] == log;
    }
  }

  /** What the three answers mean. */
  lemma {:induction false} ExistingMeans(log: Log, lease: Id)
    ensures Existing(log, lease).Absent? <==> forall i | 0 <= i < |log| :: !Resolves(log[i], lease)
    ensures Existing(log, lease).Duplicate? <==>
            exists i, j :: 0 <= i < j < |log| && Resolves(log[i], lease) && Resolves(log[j], lease)
    ensures Existing(log, lease).Unique? ==>
              var k := Existing(log, lease).at;
              k < |log| && Resolves(log[k], lease) && forall i | 0 <= i < |log| && Resolves(log[i], lease) :: i == k
  {
    if log != [] {
      var n := |log| - 1;
      var before := log[..n];
      ExistingMeans(before, lease);
      assert forall i | 0 <= i < n :: before[i] == log[i];
      if Resolves(log[n], lease) && Existing(before, lease).Unique? {
        var k := Existing(before, lease).at;
        assert Resolves(log[k], lease) && k < n;
      }
    }
  }

  // ----- one call -----

  datatype Call = Call(lease: Id, expectedHead: Digest, time: int)

  datatype Refusal =
    | MissionNotFound | NotReducible | LeaseNotRetained | CandidateNotRetained | MissionNotAdmitted
    | LeaseInactive | DuplicateRetained | ResolutionConflict
    | MissionTerminal | NotAwaiting | StaleHead | TimeRegressed | BeforeLease | LeaseExpired | ArtifactsRefused
    | AppendFailed | CommittedMissing | CommittedMismatch

  datatype Proc =
    | Ready
    | Prepared(retained: Log, event: Event)
    | Appended(event: Event)
    | Stale
    | Returned(event: Event, replayed: bool)
    | Failed(why: Refusal)

  datatype Window = Window(issuedAt: int, expiresAt: int)

  /** `_verification_lease`: the window of the first retained lease with this id. */
  function LeaseOf(log: Log, lease: Id): Option<Window> {
    if log == [] then None
    else match log[0].payload
      case LeaseIssued(id, issuedAt, expiresAt) =>
        if id == lease then Some(Window(issuedAt, expiresAt)) else LeaseOf(log[1..], lease)
      case _ => LeaseOf(log[1..], lease)
  }

  /** `_replay_existing` */
  function ReplayExisting(e: Event, c: Call): Proc
    requires e.payload.Resolved?
  {
    if e.payload.resolvedAt == c.time then Returned(e, true) else Failed(ResolutionConflict)
  }

  /** From the first load to the checked event; `issued` is what the artifact store yields. */
  function AfterLoad(K: Kernel, c: Call, log: Log, issued: Option<Id>): Proc {
    if log == [] then Failed(MissionNotFound)
    else if !K.reduces(log) then Failed(NotReducible)
    else
      var lease := LeaseOf(log, c.lease);
      if lease.None? then Failed(LeaseNotRetained)
      else if !K.candidateRetained(log, c.lease) then Failed(CandidateNotRetained)
      else if !K.admitted(log) then Failed(MissionNotAdmitted)
      else if !K.active(log, c.lease) then Failed(LeaseInactive)
      else
        match Existing(log, c.lease)
        case Duplicate => Failed(DuplicateRetained)
        case Unique(k) => ReplayExisting(log[k], c)
        case Absent =>
          if K.terminal(log) then Failed(MissionTerminal)
          else if !K.awaiting(log) then Failed(NotAwaiting)
          else if Head(K, log) != c.expectedHead then Failed(StaleHead)
          else if c.time < log[|log| - 1].decisionTime then Failed(TimeRegressed)
          else if c.time < lease.value.issuedAt then Failed(BeforeLease)
          else if c.time >= lease.value.expiresAt then Failed(LeaseExpired)
          else if issued.None? then Failed(ArtifactsRefused)
          else
            var event := Event(|log|, c.time, Resolved(c.lease, c.time, issued.value), Head(K, log));
            if !K.reduces(log + [event]) then Failed(NotReducible) else Prepared(log, event)
  }

  /** After StaleHeadError: the resolution some other call retained, or the stale head again. */
  function AfterStale(K: Kernel, c: Call, log: Log): Proc {
    if !K.reduces(log) then Failed(NotReducible) else
    match Existing(log, c.lease)
    case Absent => Failed(StaleHead)
    case Duplicate => Failed(DuplicateRetained)
    case Unique(k) => ReplayExisting(log[k], c)
  }

  /** The first resolution event with a given digest. */
  function Committed(K: Kernel, log: Log, d: Digest): Option<Event> {
    if log == [] then None
    else if log[0].payload.Resolved? && K.digest(log[0]) == d then Some(log[0])
    else Committed(K, log[1..], d)
  }

  function AfterAppend(K: Kernel, event: Event, log: Log): Proc {
    if !K.reduces(log) then Failed(NotReducible) else
    match Committed(K, log, K.digest(event))
    case None => Failed(CommittedMissing)
    case Some(e) =>
      if e.payload.Resolved? && event.payload.Resolved? && e.payload.resolution == event.payload.resolution
      then Returned(e, false) else Failed(CommittedMismatch)
  }

  // ----- exactly when a resolution is prepared, replayed or refused -----

  /** The first retained lease of this id is at `k`. */
  ghost predicate LeasedAt(log: Log, lease: Id, k: nat) {
    && k < |log| && log[k].payload.LeaseIssued? && log[k].payload.lease == lease
    && forall i | 0 <= i < k :: !(log[i].payload.LeaseIssued? && log[i].payload.lease == lease)
  }

  lemma {:induction false} LeaseOfMeans(log: Log, lease: Id)
    ensures LeaseOf(log, lease).None? <==>
            forall i | 0 <= i < |log| :: !(log[i].payload.LeaseIssued? && log[i].payload.lease == lease)
    ensures forall k: nat | LeasedAt(log, lease, k) ::
              LeaseOf(log, lease) == Some(Window(log[k].payload.issuedAt, log[k].payload.expiresAt))
    ensures LeaseOf(log, lease).Some? ==> exists k: nat :: LeasedAt(log, lease, k)
  {
    if log != [] {
      var rest := log[1..];
      LeaseOfMeans(rest, lease);
      assert forall i | 0 < i < |log| :: log[i] == rest[i - 1];
      if log[0].payload.LeaseIssued? && log[0].payload.lease == lease {
        assert LeasedAt(log, lease, 0);
      } else {
        forall k: nat | LeasedAt(log, lease, k) ensures LeasedAt(rest, lease, k - 1) {
          assert forall i | 0 <= i < k - 1 :: rest[i] == log[i + 1];
        }
        if LeaseOf(rest, lease).Some? {
          var k: nat :| LeasedAt(rest, lease, k);
          assert LeasedAt(log, lease, k + 1);
        }
      }
    }
  }

  /** The mission's state lets its leased verification go on. */
  ghost predicate Permits(K: Kernel, log: Log, lease: Id) {
    && log != [] && K.reduces(log) && K.candidateRetained(log, lease) && K.admitted(log) && K.active(log, lease)
  }

  /** The time lies in the window of the lease, and not before the head's. */
  ghost predicate Timely(log: Log, lease: Id, time: int) {
    && log != [] && log[|log| - 1].decisionTime <= time
    && exists k: nat :: LeasedAt(log, lease, k) && log[k].payload.issuedAt <= time < log[k].payload.expiresAt
  }

  /** A resolution that may follow this log. */
  ghost predicate Admissible(K: Kernel, log: Log, e: Event) {
    && e.payload.Resolved? && e.payload.resolvedAt == e.decisionTime && e.seq_ == |log| && e.prev == Head(K, log)
    && Permits(K, log, e.payload.lease) && !K.terminal(log) && K.awaiting(log)
    && (forall i | 0 <= i < |log| :: !(log[i].payload.Resolved? && log[i].payload.lease == e.payload.lease))
    && Timely(log, e.payload.lease, e.decisionTime) && K.reduces(log + [e])
  }

  /** The event a call prepares for what the artifact store yielded. */
  function EventFor(K: Kernel, c: Call, log: Log, resolution: Id): Event {
    Event(|log|, c.time, Resolved(c.lease, c.time, resolution), Head(K, log))
  }

  lemma TimelyExactly(log: Log, lease: Id, time: int)
    requires log != []
    ensures Timely(log, lease, time) <==>
            var w := LeaseOf(log, lease);
            w.Some? && log[|log| - 1].decisionTime <= time && w.value.issuedAt <= time < w.value.expiresAt
  {
    hide LeaseOf;
    LeaseOfMeans(log, lease);
    if LeaseOf(log, lease).Some? {
      var k: nat :| LeasedAt(log, lease, k);
    }
  }

  /** A call prepares exactly the admissible resolution onto the head it was told to expect. */
  lemma PreparedExactly(K: Kernel, c: Call, log: Log, issued: Option<Id>)
    ensures AfterLoad(K, c, log, issued).Prepared? <==>
            issued.Some? && Head(K, log) == c.expectedHead && Admissible(K, log, EventFor(K, c, log, issued.value))
    ensures var p := AfterLoad(K, c, log, issued);
            p.Prepared? ==> issued.Some? && p == Prepared(log, EventFor(K, c, log, issued.value))
  {
    hide LeaseOf, Existing, Timely, LeasedAt;
    if log != [] { TimelyExactly(log, c.lease, c.time); }
    ExistingMeans(log, c.lease);
  }

  /** A call for a lease that is already resolved replays that resolution at its own time and conflicts at another. */
  lemma LoadReplays(K: Kernel, c: Call, log: Log, issued: Option<Id>, k: nat)
    requires AtMostOne(log) && k < |log| && Resolves(log[k], c.lease) && Permits(K, log, c.lease)
    requires exists i: nat :: LeasedAt(log, c.lease, i)
    ensures AfterLoad(K, c, log, issued)
            == if log[k].payload.resolvedAt == c.time then Returned(log[k], true) else Failed(ResolutionConflict)
  {
    hide LeaseOf, Existing, LeasedAt;
    LeaseOfMeans(log, c.lease);
    OnlyOne(log, c.lease, k);
  }

  /** So does a call that lost the race for the head, and without a resolution its head is just stale. */
  lemma StaleExactly(K: Kernel, c: Call, log: Log)
    requires AtMostOne(log) && K.reduces(log)
    ensures forall k | 0 <= k < |log| && Resolves(log[k], c.lease) ::
              AfterStale(K, c, log)
              == if log[k].payload.resolvedAt == c.time then Returned(log[k], true) else Failed(ResolutionConflict)
    ensures (forall k | 0 <= k < |log| :: !Resolves(log[k], c.lease)) ==> AfterStale(K, c, log) == Failed(StaleHead)
  {
    hide Existing;
    ExistingMeans(log, c.lease);
    forall k | 0 <= k < |log| && Resolves(log[k], c.lease) ensures Existing(log, c.lease) == Unique(k) {
      OnlyOne(log, c.lease, k);
    }
  }

  /** Each refusal of the first load names something that is the case. */
  ghost predicate Truthful(K: Kernel, c: Call, log: Log, issued: Option<Id>, why: Refusal) {
    match why
    case MissionNotFound => log == []
    case NotReducible =>
      !K.reduces(log) || (issued.Some? && !K.reduces(log + [EventFor(K, c, log, issued.value)]))
    case LeaseNotRetained => forall k: nat :: !LeasedAt(log, c.lease, k)
    case CandidateNotRetained => !K.candidateRetained(log, c.lease)
    case MissionNotAdmitted => !K.admitted(log)
    case LeaseInactive => !K.active(log, c.lease)
    case DuplicateRetained => !AtMostOne(log)
    case ResolutionConflict =>
      exists k :: 0 <= k < |log| && Resolves(log[k], c.lease) && log[k].payload.resolvedAt != c.time
    case MissionTerminal => K.terminal(log)
    case NotAwaiting => !K.awaiting(log)
    case StaleHead => Head(K, log) != c.expectedHead
    case TimeRegressed => log != [] && c.time < log[|log| - 1].decisionTime
    case BeforeLease => exists k: nat :: LeasedAt(log, c.lease, k) && c.time < log[k].payload.issuedAt
    case LeaseExpired => exists k: nat :: LeasedAt(log, c.lease, k) && c.time >= log[k].payload.expiresAt
    case ArtifactsRefused => issued.None?
    case _ => false
  }

  lemma LoadReasons(K: Kernel, c: Call, log: Log, issued: Option<Id>)
    ensures var p := AfterLoad(K, c, log, issued); p.Failed? ==> Truthful(K, c, log, issued, p.why)
  {
    hide LeaseOf, Existing, LeasedAt;
    LeaseOfMeans(log, c.lease);
    ExistingMeans(log, c.lease);
    if LeaseOf(log, c.lease).None? {
      NoLease(log, c.lease);
    }
  }

  lemma NoLease(log: Log, lease: Id)
    requires forall i | 0 <= i < |log| :: !(log[i].payload.LeaseIssued? && log[i].payload.lease == lease)
    ensures forall k: nat :: !LeasedAt(log, lease, k)
  {
  }

  // ----- the system -----

  datatype State = State(log: Log, calls: seq<Call>, procs: seq<Proc>)

  /** Some other command appends an event that is no resolution. */
  ghost predicate Elsewhere(K: Kernel, s: State, s': State) {
    exists e: Event :: && e.seq_ == |s.log| && e.prev == Head(K, s.log) && !e.payload.Resolved?
                       && s' == s.(log := s.log + [e])
  }

  /** Call `i` takes its next step; an append may fail without effect, or in spite of its effect. */
  ghost predicate CallSteps(K: Kernel, s: State, s': State, i: nat) {
    && i < |s.procs| == |s.calls|
    && s'.calls == s.calls && |s'.procs| == |s.procs| && s'.procs == s.procs[i := s'.procs[i]]
    && var c, p' := s.calls[i], s'.procs[i];
       match s.procs[i]
       case Ready => s'.log == s.log && exists issued :: p' == AfterLoad(K, c, s.log, issued)
       case Prepared(_, e) =>
         || (Head(K, s.log) == c.expectedHead && s'.log == s.log + [e] && p' == Appended(e))
         || (Head(K, s.log) != c.expectedHead && s'.log == s.log && p' == Stale)
         || (s'.log == s.log && p' == Failed(AppendFailed))
         || (Head(K, s.log) == c.expectedHead && s'.log == s.log + [e] && p' == Failed(AppendFailed))
       case Stale => s'.log == s.log && p' == AfterStale(K, c, s.log)
       case Appended(e) => s'.log == s.log && p' == AfterAppend(K, e, s.log)
       case Returned(_, _) => s' == s
       case Failed(_) => s' == s
  }

  /** What a prepared call may run into: a stale head, an append that fails without or in spite of its effect. */
  lemma OutcomesPossible(K: Kernel, s: State, i: nat)
    requires i < |s.procs| == |s.calls| && s.procs[i].Prepared?
    ensures var e, current := s.procs[i].event, Head(K, s.log) == s.calls[i].expectedHead;
            && Next(K, s, s.(procs := s.procs[i := Failed(AppendFailed)]))
            && (!current ==> Next(K, s, s.(procs := s.procs[i := Stale])))
            && (current ==> Next(K, s, s.(log := s.log + [e], procs := s.procs[i := Appended(e)])))
            && (current ==> Next(K, s, s.(log := s.log + [e], procs := s.procs[i := Failed(AppendFailed)])))
  {
    var e := s.procs[i].event;
    var s1, s2 := s.(procs := s.procs[i := Failed(AppendFailed)]), s.(procs := s.procs[i := Stale]);
    var s3 := s.(log := s.log + [e], procs := s.procs[i := Appended(e)]);
    var s4 := s.(log := s.log + [e], procs := s.procs[i := Failed(AppendFailed)]);
    assert CallSteps(K, s, s1, i);
    assert Head(K, s.log) != s.calls[i].expectedHead ==> CallSteps(K, s, s2, i);
    assert Head(K, s.log) == s.calls[i].expectedHead ==> CallSteps(K, s, s3, i) && CallSteps(K, s, s4, i);
  }

  ghost predicate Next(K: Kernel, s: State, s': State) {
    Elsewhere(K, s, s') || exists i :: CallSteps(K, s, s', i)
  }

  ghost predicate Initial(K: Kernel, s: State) {
    && Chained(K, s.log) && AtMostOne(s.log) && |s.procs| == |s.calls|
    && forall i | 0 <= i < |s.procs| :: s.procs[i] == Ready
  }

  ghost predicate Run(K: Kernel, run: seq<State>) {
    && run != [] && Initial(K, run[0])
    && forall k | 0 <= k < |run| - 1 :: Next(K, run[k], run[k + 1])
  }

  // ----- the invariant -----

  ghost predicate Has(log: Log, e: Event) {
    e.seq_ < |log| && log[e.seq_] == e
  }

  ghost predicate ProcOk(K: Kernel, log: Log, c: Call, p: Proc) {
    match p
    case Prepared(retained, e) =>
      && retained != [] && retained <= log && Head(K, retained) == c.expectedHead
      && (forall i | 0 <= i < |retained| :: !Resolves(retained[i], c.lease))
      && e.seq_ == |retained| && e.prev == c.expectedHead
      && Resolves(e, c.lease) && e.payload.resolvedAt == c.time && Admissible(K, retained, e)
    case Appended(e) => Has(log, e) && Resolves(e, c.lease) && e.payload.resolvedAt == c.time
    case Returned(e, _) => Has(log, e) && Resolves(e, c.lease) && e.payload.resolvedAt == c.time
    case _ => true
  }

  /** The event a call put into the log itself. */
  function Own(p: Proc): Option<Event> {
    match p
    case Appended(e) => Some(e)
    case Returned(e, replayed) => if replayed then None else Some(e)
    case _ => None
  }

  ghost predicate OwnersDiffer(procs: seq<Proc>) {
    forall i, j | 0 <= i < |procs| && 0 <= j < |procs| && Own(procs[i]).Some? && Own(procs[i]) == Own(procs[j]) ::
      i == j
  }

  ghost predicate Inv(K: Kernel, s: State) {
    && Chained(K, s.log) && AtMostOne(s.log) && |s.procs| == |s.calls|
    && (forall i | 0 <= i < |s.procs| :: ProcOk(K, s.log, s.calls[i], s.procs[i]))
    && OwnersDiffer(s.procs)
  }

  /** Equal heads of a log and its prefix mean that nothing was appended in between. */
  lemma SameHead(K: Kernel, retained: Log, log: Log)
    requires Chained(K, log) && retained != [] && retained <= log && Head(K, retained) == Head(K, log)
    ensures retained == log || EventCollision(K)
  {
    var a, b := retained[|retained| - 1], log[|log| - 1];
    assert K.digest(a) == K.digest(b);
    assert a.seq_ == |retained| - 1 && b.seq_ == |log| - 1;
  }

  lemma ChainGrows(K: Kernel, log: Log, e: Event)
    requires Chained(K, log) && e.seq_ == |log| && e.prev == Head(K, log)
    ensures Chained(K, log + [e])
  {
    var log' := log + [e];
    forall i | 0 <= i < |log'| ensures log'[i].seq_ == i && log'[i].prev == Head(K, log'[..i]) {
      if i < |log| { assert log'[..i] == log[..i]; } else { assert log'[..i] == log; }
    }
  }

  lemma OthersKept(K: Kernel, s: State, log': Log)
    requires Inv(K, s) && s.log <= log'
    ensures forall i | 0 <= i < |s.procs| :: ProcOk(K, log', s.calls[i], s.procs[i])
  {
    forall i | 0 <= i < |s.procs| ensures ProcOk(K, log', s.calls[i], s.procs[i]) {
      assert ProcOk(K, s.log, s.calls[i], s.procs[i]);
    }
  }

  lemma LoadedOk(K: Kernel, c: Call, log: Log, issued: Option<Id>)
    requires Chained(K, log)
    ensures ProcOk(K, log, c, AfterLoad(K, c, log, issued)) && Own(AfterLoad(K, c, log, issued)).None?
  {
    hide AfterLoad, Timely;
    PreparedExactly(K, c, log, issued);
    LoadReturns(K, c, log, issued);
  }

  lemma LoadReturns(K: Kernel, c: Call, log: Log, issued: Option<Id>)
    requires Chained(K, log)
    ensures var p := AfterLoad(K, c, log, issued);
            && (p.Prepared? || p.Returned? || p.Failed?)
            && (p.Returned? ==> && p.replayed && Has(log, p.event) && Resolves(p.event, c.lease)
                                && p.event.payload.resolvedAt == c.time)
  {
    hide LeaseOf;
  }

  lemma StaleOk(K: Kernel, c: Call, log: Log)
    requires Chained(K, log)
    ensures ProcOk(K, log, c, AfterStale(K, c, log)) && Own(AfterStale(K, c, log)).None?
  {
    ExistingMeans(log, c.lease);
  }

  lemma {:induction false} CommittedIs(K: Kernel, log: Log, e: Event)
    requires e in log && e.payload.Resolved?
    ensures Committed(K, log, K.digest(e)) == Some(e) || EventCollision(K)
  {
    if log[0].payload.Resolved? && K.digest(log[0]) == K.digest(e) {
      assert log[0] == e || EventCollision(K);
    } else {
      assert log == [log[0]] + log[1..];
      CommittedIs(K, log[1..], e);
    }
  }

  lemma AppendedOk(K: Kernel, c: Call, log: Log, e: Event)
    requires Has(log, e) && Resolves(e, c.lease) && e.payload.resolvedAt == c.time
    ensures AfterAppend(K, e, log) == (if K.reduces(log) then Returned(e, false) else Failed(NotReducible))
            || EventCollision(K)
  {
    CommittedIs(K, log, e);
  }

  /** The append that succeeds is onto exactly the log that was checked. */
  lemma AppendOk(K: Kernel, s: State, i: nat)
    requires Inv(K, s) && i < |s.procs| && s.procs[i].Prepared? && Head(K, s.log) == s.calls[i].expectedHead
    ensures var e := s.procs[i].event;
            var log' := s.log + [e];
            || EventCollision(K)
            || (&& Chained(K, log') && AtMostOne(log') && e.seq_ == |s.log|
                && ProcOk(K, log', s.calls[i], Appended(e)))
  {
    var c, p := s.calls[i], s.procs[i];
    assert ProcOk(K, s.log, c, p);
    SameHead(K, p.retained, s.log);
    if !EventCollision(K) {
      ChainGrows(K, s.log, p.event);
      OneMore(s.log, p.event, c.lease);
    }
  }

  lemma OneMore(log: Log, e: Event, lease: Id)
    requires AtMostOne(log) && Resolves(e, lease) && forall i | 0 <= i < |log| :: !Resolves(log[i], lease)
    ensures AtMostOne(log + [e])
  {
    var log' := log + [e];
    assert forall i | 0 <= i < |log| :: log'[i] == log[i];
  }

  lemma ElsewhereKeeps(K: Kernel, s: State, s': State)
    requires Inv(K, s) && Elsewhere(K, s, s')
    ensures Inv(K, s')
  {
    var e: Event :| && e.seq_ == |s.log| && e.prev == Head(K, s.log) && !e.payload.Resolved?
                    && s' == s.(log := s.log + [e]);
    ChainGrows(K, s.log, e);
    OthersKept(K, s, s'.log);
    assert forall i | 0 <= i < |s.log| :: s'.log[i] == s.log[i];
  }

  /** Replacing one call's state, when its log only grew. */
  lemma Replaced(K: Kernel, s: State, s': State, i: nat)
    requires Inv(K, s) && i < |s.procs| && s.log <= s'.log
    requires s'.calls == s.calls && |s'.procs| == |s.procs| && s'.procs == s.procs[i := s'.procs[i]]
    requires Chained(K, s'.log) && AtMostOne(s'.log) && ProcOk(K, s'.log, s.calls[i], s'.procs[i])
    requires Own(s'.procs[i]).Some? ==>
               Own(s'.procs[i]) == Own(s.procs[i]) || Own(s'.procs[i]).value.seq_ >= |s.log|
    ensures Inv(K, s')
  {
    OthersKept(K, s, s'.log);
    forall j, k | 0 <= j < |s'.procs| && 0 <= k < |s'.procs|
                  && Own(s'.procs[j]).Some? && Own(s'.procs[j]) == Own(s'.procs[k])
      ensures j == k
    {
      if j != i { assert ProcOk(K, s.log, s.calls[j], s.procs[j]); }
      if k != i { assert ProcOk(K, s.log, s.calls[k], s.procs[k]); }
    }
  }

  lemma CallKeeps(K: Kernel, s: State, s': State, i: nat)
    requires Inv(K, s) && CallSteps(K, s, s', i)
    ensures Inv(K, s') || EventCollision(K)
  {
    hide AfterLoad, AfterStale, AfterAppend, Chained, AtMostOne, OwnersDiffer, EventCollision;
    var c := s.calls[i];
    assert ProcOk(K, s.log, c, s.procs[i]);
    match s.procs[i]
    case Ready =>
      var issued :| s'.procs[i] == AfterLoad(K, c, s.log, issued);
      LoadedOk(K, c, s.log, issued);
      Replaced(K, s, s', i);
    case Prepared(_, e) =>
      if s'.log != s.log {
        AppendOk(K, s, i);
        if !EventCollision(K) { Replaced(K, s, s', i); }
      } else {
        Replaced(K, s, s', i);
      }
    case Stale =>
      StaleOk(K, c, s.log);
      Replaced(K, s, s', i);
    case Appended(e) =>
      AppendedOk(K, c, s.log, e);
      if !EventCollision(K) { Replaced(K, s, s', i); }
    case Returned(_, _) =>
    case Failed(_) =>
  }

  // ----- over every run -----

  lemma {:induction false} RunKeeps(K: Kernel, run: seq<State>, k: nat)
    requires Run(K, run) && k < |run|
    ensures Inv(K, run[k]) || EventCollision(K)
  {
    hide Inv, EventCollision, CallSteps, Elsewhere;
    if k == 0 {
      InitialOk(K, run[0]);
    } else {
      RunKeeps(K, run, k - 1);
      assert Next(K, run[k - 1], run[k]);
      if !EventCollision(K) {
        if Elsewhere(K, run[k - 1], run[k]) {
          ElsewhereKeeps(K, run[k - 1], run[k]);
        } else {
          var i :| CallSteps(K, run[k - 1], run[k], i);
          CallKeeps(K, run[k - 1], run[k], i);
        }
      }
    }
  }

  lemma InitialOk(K: Kernel, s: State)
    requires Initial(K, s)
    ensures Inv(K, s)
  {
  }

  /** The log only grows, the calls stay, and a call that returned stays returned. */
  ghost predicate Later(s: State, t: State) {
    && s.log <= t.log && t.calls == s.calls && |t.procs| == |s.procs|
    && forall i | 0 <= i < |s.procs| && s.procs[i].Returned? :: t.procs[i] == s.procs[i]
  }

  lemma NextIsLater(K: Kernel, s: State, t: State)
    requires Next(K, s, t)
    ensures Later(s, t)
  {
    if !Elsewhere(K, s, t) {
      var i :| CallSteps(K, s, t, i);
    }
  }

  lemma {:induction false} RunIsLater(K: Kernel, run: seq<State>, j: nat, k: nat)
    requires Run(K, run) && j <= k < |run|
    ensures Later(run[j], run[k])
    decreases k
  {
    hide Next, Initial;
    if j < k {
      RunIsLater(K, run, j, k - 1);
      NextIsLater(K, run[k - 1], run[k]);
    }
  }

  // ----- every appended resolution was admissible -----

  /** From `base` on, each resolution was admissible on the log before it. */
  ghost predicate Grounded(K: Kernel, base: nat, log: Log) {
    forall at | base <= at < |log| && log[at].payload.Resolved? :: Admissible(K, log[..at], log[at])
  }

  lemma GroundedGrows(K: Kernel, base: nat, log: Log, e: Event)
    requires Grounded(K, base, log) && (e.payload.Resolved? ==> Admissible(K, log, e))
    ensures Grounded(K, base, log + [e])
  {
    hide Admissible;
    var log' := log + [e];
    forall at | base <= at < |log'| && log'[at].payload.Resolved? ensures Admissible(K, log'[..at], log'[at]) {
      if at < |log| { assert log'[..at] == log[..at]; } else { assert log'[..at] == log; }
    }
  }

  lemma GroundedStep(K: Kernel, base: nat, s: State, s': State)
    requires Inv(K, s) && Grounded(K, base, s.log) && Next(K, s, s')
    ensures Grounded(K, base, s'.log) || EventCollision(K)
  {
    hide Grounded, Admissible, EventCollision, AfterLoad, AfterStale, AfterAppend, AtMostOne, OwnersDiffer;
    if Elsewhere(K, s, s') {
      var e: Event :| && e.seq_ == |s.log| && e.prev == Head(K, s.log) && !e.payload.Resolved?
                      && s' == s.(log := s.log + [e]);
      GroundedGrows(K, base, s.log, e);
    } else if s'.log != s.log {
      var i: nat :| CallSteps(K, s, s', i);
      assert ProcOk(K, s.log, s.calls[i], s.procs[i]);
      var p := s.procs[i];
      SameHead(K, p.retained, s.log);
      if !EventCollision(K) { GroundedGrows(K, base, s.log, p.event); }
    }
  }

  lemma {:induction false} GroundedRun(K: Kernel, run: seq<State>, k: nat)
    requires Run(K, run) && k < |run|
    ensures Grounded(K, |run[0].log|, run[k].log) || EventCollision(K)
  {
    hide Inv, Next, Initial, EventCollision, Admissible;
    if k > 0 {
      GroundedRun(K, run, k - 1);
      RunKeeps(K, run, k - 1);
      if !EventCollision(K) { GroundedStep(K, |run[0].log|, run[k - 1], run[k]); }
    }
  }

  /** Whatever the interleaving, a resolution that calls appended was admissible on exactly the log before it. */
  lemma ResolutionsAdmissible(K: Kernel, run: seq<State>, k: nat, at: nat)
    requires Run(K, run) && k < |run| && |run[0].log| <= at < |run[k].log| && run[k].log[at].payload.Resolved?
    ensures Admissible(K, run[k].log[..at], run[k].log[at]) || EventCollision(K)
  {
    hide Run, EventCollision, Admissible;
    GroundedRun(K, run, k);
  }

  /** A call that lost the race returns the resolution its lease got at the call's own time, with its next step. */
  lemma RacedCallReturns(K: Kernel, run: seq<State>, m: nat, i: nat, k: nat)
    requires Run(K, run) && m + 1 < |run| && i < |run[m].procs| == |run[m].calls| && run[m].procs[i].Stale?
    requires i < |run[m + 1].procs| && run[m + 1].procs[i] != run[m].procs[i] && K.reduces(run[m].log)
    requires k < |run[m].log| && Resolves(run[m].log[k], run[m].calls[i].lease)
    ensures || EventCollision(K)
            || run[m + 1].procs[i] == (if run[m].log[k].payload.resolvedAt == run[m].calls[i].time
                                       then Returned(run[m].log[k], true) else Failed(ResolutionConflict))
  {
    hide EventCollision, AfterLoad, AfterStale, AfterAppend, Chained, OwnersDiffer, AtMostOne;
    RunKeeps(K, run, m);
    assert Next(K, run[m], run[m + 1]);
    if !EventCollision(K) {
      var j :| CallSteps(K, run[m], run[m + 1], j);
      assert j == i;
      StaleExactly(K, run[m].calls[i], run[m].log);
    }
  }

  /** At most one resolution per lease is ever retained. */
  lemma OneResolutionPerLease(K: Kernel, run: seq<State>, k: nat)
    requires Run(K, run) && k < |run|
    ensures AtMostOne(run[k].log) || EventCollision(K)
  {
    RunKeeps(K, run, k);
  }

  /** What a call returned is, then and ever after, the one resolution its lease has. */
  lemma ReturnedIsRetained(K: Kernel, run: seq<State>, j: nat, k: nat, i: nat)
    requires Run(K, run) && j <= k < |run| && i < |run[j].procs| == |run[j].calls| && run[j].procs[i].Returned?
    ensures var c, e := run[j].calls[i], run[j].procs[i].event;
            || EventCollision(K)
            || (&& Resolves(e, c.lease) && e.payload.resolvedAt == c.time
                && Existing(run[k].log, c.lease) == Unique(e.seq_)
                && e.seq_ < |run[k].log| && run[k].log[e.seq_] == e)
  {
    hide Run, EventCollision, Existing;
    RunKeeps(K, run, k);
    RunIsLater(K, run, j, k);
    if !EventCollision(K) {
      var c, e := run[j].calls[i], run[j].procs[i].event;
      assert ProcOk(K, run[k].log, c, run[k].procs[i]);
      OnlyOne(run[k].log, c.lease, e.seq_);
    }
  }

  lemma OnlyOne(log: Log, lease: Id, k: nat)
    requires AtMostOne(log) && k < |log| && Resolves(log[k], lease)
    ensures Existing(log, lease) == Unique(k)
  {
    ExistingMeans(log, lease);
  }

  /** Any two calls for one lease that return, at any time, return the same event. */
  lemma ReturnsAgree(K: Kernel, run: seq<State>, j: nat, a: nat, k: nat, b: nat)
    requires Run(K, run) && j <= k < |run|
    requires a < |run[j].procs| == |run[j].calls| && b < |run[k].procs| == |run[k].calls|
    requires run[j].procs[a].Returned? && run[k].procs[b].Returned? && run[j].calls[a].lease == run[k].calls[b].lease
    ensures || EventCollision(K)
            || (&& run[j].procs[a].event == run[k].procs[b].event
                && run[j].calls[a].time == run[k].calls[b].time)
  {
    hide Run, EventCollision, Existing;
    ReturnedIsRetained(K, run, j, k, a);
    ReturnedIsRetained(K, run, k, k, b);
  }

  /** And at most one of them put it there. */
  lemma OneFreshReturn(K: Kernel, run: seq<State>, k: nat, a: nat, b: nat)
    requires Run(K, run) && k < |run| && a < |run[k].procs| == |run[k].calls| && b < |run[k].procs|
    requires run[k].procs[a].Returned? && run[k].procs[b].Returned? && run[k].calls[a].lease == run[k].calls[b].lease
    requires !run[k].procs[a].replayed && !run[k].procs[b].replayed
    ensures a == b || EventCollision(K)
  {
    hide Run, EventCollision;
    ReturnsAgree(K, run, k, a, k, b);
    RunKeeps(K, run, k);
  }

  /** Once a lease is resolved at one time, a call for another time returns nowhere in the run. */
  lemma OtherTimeNeverReturns(K: Kernel, run: seq<State>, j: nat, k: nat, i: nat, at: nat)
    requires Run(K, run) && j < |run| && k < |run| && i < |run[k].procs| == |run[k].calls|
    requires at < |run[j].log| && Resolves(run[j].log[at], run[k].calls[i].lease)
    requires run[j].log[at].payload.resolvedAt != run[k].calls[i].time
    ensures !run[k].procs[i].Returned? || EventCollision(K)
  {
    hide Run, EventCollision;
    var last := |run| - 1;
    if run[k].procs[i].Returned? {
      ReturnedIsRetained(K, run, k, last, i);
      RunIsLater(K, run, j, last);
      ExistingMeans(run[last].log, run[k].calls[i].lease);
    }
  }

  // ----- and undisturbed calls return -----

  /** The log changes only by call `i`'s own append, and that does not fail. */
  ghost predicate Quiet(s: State, s': State, i: nat) {
    && i < |s.procs| == |s'.procs|
    && (s'.procs[i] == s.procs[i] ==> s'.log == s.log)
    && (s.procs[i].Prepared? ==> s'.procs[i] != Failed(AppendFailed))
  }

  /** Where a call that checked `log` and prepared `e` is when nobody gets in its way. */
  ghost predicate OnCourse(s: State, i: nat, log: Log, e: Event) {
    && i < |s.procs| == |s.calls|
    && match s.procs[i]
       case Prepared(retained, own) => own == e && retained == log == s.log
       case Appended(own) => own == e && s.log == log + [e]
       case Returned(own, replayed) => own == e && !replayed && s.log == log + [e]
       case _ => false
  }

  lemma PreparedReduces(K: Kernel, c: Call, log: Log, issued: Option<Id>)
    requires AfterLoad(K, c, log, issued).Prepared?
    ensures var p := AfterLoad(K, c, log, issued);
            p.retained == log && Head(K, log) == c.expectedHead && K.reduces(log + [p.event])
  {
  }

  lemma Loads(K: Kernel, s: State, s': State, i: nat)
    requires Next(K, s, s') && i < |s.procs| == |s.calls| && s.procs[i].Ready?
    requires i < |s'.procs| && s'.procs[i].Prepared?
    ensures var e := s'.procs[i].event;
            OnCourse(s', i, s.log, e) && Head(K, s.log) == s.calls[i].expectedHead && K.reduces(s.log + [e])
  {
    hide AfterLoad;
    assert !Elsewhere(K, s, s');
    var j :| CallSteps(K, s, s', j);
    assert j == i;
    var issued :| s'.procs[i] == AfterLoad(K, s.calls[i], s.log, issued);
    PreparedReduces(K, s.calls[i], s.log, issued);
  }

  /** The steps a call on course still has to take. */
  function StepsLeft(p: Proc): nat {
    match p
    case Prepared(_, _) => 2
    case Appended(_) => 1
    case _ => 0
  }

  lemma StaysOnCourse(K: Kernel, s: State, s': State, i: nat, log: Log, e: Event)
    requires Inv(K, s) && Next(K, s, s') && Quiet(s, s', i) && OnCourse(s, i, log, e)
    requires Head(K, log) == s.calls[i].expectedHead && K.reduces(log + [e])
    ensures || EventCollision(K)
            || (&& OnCourse(s', i, log, e)
                && StepsLeft(s.procs[i]) == StepsLeft(s'.procs[i]) + if s'.procs[i] != s.procs[i] then 1 else 0)
  {
    hide EventCollision, AfterLoad, AfterStale, AfterAppend, Chained, AtMostOne, OwnersDiffer, Has;
    if s'.procs[i] != s.procs[i] {
      assert !Elsewhere(K, s, s');
      var j :| CallSteps(K, s, s', j);
      assert j == i;
      assert ProcOk(K, s.log, s.calls[i], s.procs[i]);
      if s.procs[i].Appended? { AppendedOk(K, s.calls[i], s.log, e); }
    } else {
      NextIsLater(K, s, s');
    }
  }

  /** How often call `i` moves between two states of a run. */
  function Moves(run: seq<State>, i: nat, m: nat, k: nat): nat
    requires m <= k < |run|
  {
    if m == k then 0 else Moves(run, i, m, k - 1) + if Moved(run[k - 1], run[k], i) then 1 else 0
  }

  predicate Moved(s: State, s': State, i: nat) {
    i < |s.procs| && i < |s'.procs| && s'.procs[i] != s.procs[i]
  }

  /**
   A call whose load found everything in order, with nobody else appending and its append
   not failing, is never refused and returns with its second step from there: it has then
   appended exactly its event to the log it checked, and returns that as fresh.
   */
  lemma {:induction false} UndisturbedReturns(K: Kernel, run: seq<State>, m: nat, k: nat, i: nat)
    requires Run(K, run) && m < k < |run| && i < |run[m].procs| == |run[m].calls| && run[m].procs[i].Ready?
    requires i < |run[m + 1].procs| && run[m + 1].procs[i].Prepared?
    requires forall l | m < l < k :: Quiet(run[l], run[l + 1], i)
    ensures || EventCollision(K)
            || (&& OnCourse(run[k], i, run[m].log, run[m + 1].procs[i].event)
                && StepsLeft(run[k].procs[i]) == 2 - Moves(run, i, m + 1, k))
    decreases k
  {
    hide Inv, Next, Initial, EventCollision;
    Loads(K, run[m], run[m + 1], i);
    if k > m + 1 && !EventCollision(K) {
      UndisturbedReturns(K, run, m, k - 1, i);
      RunKeeps(K, run, k - 1);
      RunIsLater(K, run, m, k - 1);
      StaysOnCourse(K, run[k - 1], run[k], i, run[m].log, run[m + 1].procs[i].event);
    }
  }

  /** And nothing keeps it from taking its next step. */
  lemma UndisturbedMoves(K: Kernel, s: State, i: nat, log: Log, e: Event) returns (s': State)
    requires Inv(K, s) && OnCourse(s, i, log, e) && !s.procs[i].Returned?
    requires Head(K, log) == s.calls[i].expectedHead && K.reduces(log + [e])
    ensures (Next(K, s, s') && Quiet(s, s', i) && Moved(s, s', i)) || EventCollision(K)
  {
    hide EventCollision, AfterLoad, AfterStale, AfterAppend, Chained, AtMostOne, OwnersDiffer, Has;
    assert ProcOk(K, s.log, s.calls[i], s.procs[i]);
    if s.procs[i].Prepared? {
      s' := s.(log := s.log + [e], procs := s.procs[i := Appended(e)]);
    } else {
      AppendedOk(K, s.calls[i], s.log, e);
      s' := s.(procs := s.procs[i := Returned(e, false)]);
    }
    assert CallSteps(K, s, s', i) || EventCollision(K);
  }
}
