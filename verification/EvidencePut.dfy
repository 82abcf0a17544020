/**
 `FileEvidenceStore._put_exact` of etzio/evidence.py, call by call, with any number of puts
 interleaved, partial writes, and every system call free to fail. Root, shard, temporary file
 and each read have their descriptor; a failed close may or may not have released it, released
 numbers are handed out again, and a failed rename may or may not have taken place.
 */
module EvidencePut {
  import opened Common

  /** Content-addressed names and random temporary names never coincide. */
  datatype Name = Artifact(digest: Digest) | Temporary(token: nat)

  /** What is put: its digest is the one the type's hash gives its bytes. */
  datatype Put = Put(data: Bytes, hash: Bytes -> Digest)
  {
    function Target(): Name { Artifact(hash(data)) }

    /** Whether bytes found under the name pass for this put. */
    predicate Matches(bytes: Bytes) { hash(bytes) == hash(data) }
  }

  /** Where the artifact is read: at first, after a lost race for the name, and for the final check. */
  datatype Site = AtFirst | AtConflict(temp: nat) | AtEnd(leftover: Option<nat>)

  datatype Pc =
    | Begin
    | Rooted
    | Checking(site: Site)
    | Reading(fd: nat, site: Site)
    | Creating
    | Opened(fd: nat, temp: nat)
    | Writing(fd: nat, temp: nat, written: nat)
    | Closing(fd: nat, temp: nat)
    | Renaming(temp: nat)
    | Syncing(leftover: Option<nat>)
    | CleanupClose(fd: nat, temp: nat)
    | Unlinking(leftover: Option<nat>, ok: bool)
    | Leaving(ok: bool)
    | Exited(ok: bool)

  /**
   `dirs` are the root and shard descriptors to close on leaving, `opens` and `closes` count
   the put's calls, and `residue` is a name whose cleanup failed.
   */
  datatype Proc = Proc(pc: Pc, dirs: seq<nat>, opens: nat, closes: nat, residue: Option<nat>)

  datatype State = State(files: map<Name, Bytes>, table: map<nat, nat>, puts: seq<Put>, procs: seq<Proc>, maximum: nat)

  ghost predicate Initial(s: State) {
    && |s.procs| == |s.puts|
    && (forall i | 0 <= i < |s.procs| :: s.procs[i] == Proc(Begin, [], 0, 0, None))
  }

  /** The temporary name a put still has to deal with. */
  function Temp(pc: Pc): Option<nat> {
    match pc
    case Opened(_, t) => Some(t)
    case Writing(_, t, _) => Some(t)
    case Closing(_, t) => Some(t)
    case Renaming(t) => Some(t)
    case Checking(site) => SiteTemp(site)
    case Reading(_, site) => SiteTemp(site)
    case Syncing(left) => left
    case CleanupClose(_, t) => Some(t)
    case Unlinking(left, _) => left
    case _ => None
  }

  function SiteTemp(site: Site): Option<nat> {
    match site
    case AtFirst => None
    case AtConflict(t) => Some(t)
    case AtEnd(left) => left
  }

  // ----- reading a file -----

  const CHUNK: nat := 0x10_0000

  /** A file as one call finds it; `stamp` is its stable metadata other than the size. */
  datatype Version = Version(content: Bytes, stamp: Id)
  {
    predicate SameStat(v: Version) { |content| == |v.content| && stamp == v.stamp }
  }

  datatype ReadError = TooLong | Changed

  /** Equal metadata before and after mean equal contents in between. */
  ghost predicate Telling(file: nat -> Version, ends: nat) {
    file(0).SameStat(file(ends)) ==> forall t: nat | t <= ends :: file(t).content == file(0).content
  }

  /** `_read_descriptor_exact` on a file that may change between any two calls, in chunks of any size. */
  method ReadDescriptorExact(file: nat -> Version, maximum: nat) returns (r: Result<Bytes, ReadError>, ends: nat)
    ensures |file(0).content| > maximum ==> r == Err(TooLong)
    ensures r.Ok? ==> file(0).SameStat(file(ends)) && |r.value| <= maximum
    ensures r == Err(Changed) ==> !file(0).SameStat(file(ends))
    ensures r.Ok? && Telling(file, ends) ==> r.value == file(0).content
    ensures (forall t: nat | t <= ends :: file(t) == file(0)) ==> (r.Ok? <==> |file(0).content| <= maximum)
  {
    ends := 0;
    if |file(0).content| > maximum { return Err(TooLong), ends; }
    var data: Bytes := [];
    while true
      invariant |data| <= maximum
      invariant (forall t: nat | t <= ends :: file(t).content == file(0).content) ==> data <= file(0).content
      decreases maximum - |data|
    {
      ends := ends + 1;
      var content := file(ends).content;
      var limit := if CHUNK < maximum + 1 - |data| then CHUNK else maximum + 1 - |data|;
      var rest := if |data| < |content| then |content| - |data| else 0;
      var count :| 0 <= count <= limit && count <= rest && (count == 0 ==> rest == 0);
      if count == 0 { break; }
      data := data + content[|data|..|data| + count];
      if |data| > maximum { return Err(TooLong), ends; }
    }
    ghost var read := ends;
    ends := ends + 1;
    if !file(0).SameStat(file(ends)) { return Err(Changed), ends; }
    r := Ok(data);
    assert Telling(file, ends) ==> file(read).content == file(0).content;
  }

  /** A file that is only ever appended to tells by its size, so its growth is always refused. */
  lemma GrowthTells(file: nat -> Version, ends: nat)
    requires forall t: nat | t < ends :: file(t).content <= file(t + 1).content
    ensures Telling(file, ends)
  {
    forall t: nat | t <= ends ensures file(0).content <= file(t).content <= file(ends).content {
      Grown(file, ends, 0, t);
      Grown(file, ends, t, ends);
    }
  }

  lemma {:induction false} Grown(file: nat -> Version, ends: nat, t: nat, u: nat)
    requires forall v: nat | v < ends :: file(v).content <= file(v + 1).content
    requires t <= u <= ends
    ensures file(t).content <= file(u).content
    decreases u
  {
    if t < u { Grown(file, ends, t, u - 1); }
  }

  // ----- one step of put `i` -----

  /** Besides files and descriptors, a step of put `i` changes only that put's own record. */
  ghost predicate Touches(s: State, s': State, i: nat) {
    && i < |s.procs| == |s.puts| && s'.puts == s.puts && s'.maximum == s.maximum && |s'.procs| == |s.procs|
    && (forall j | 0 <= j < |s.procs| && j != i :: s'.procs[j] == s.procs[j])
  }

  ghost predicate Goes(s: State, s': State, i: nat, pc': Pc)
    requires Touches(s, s', i)
  {
    s'.files == s.files && s'.table == s.table && s'.procs[i] == s.procs[i].(pc := pc')
  }

  /** A number nobody has is now put `i`'s. */
  ghost predicate Opens(s: State, s': State, i: nat, fd: nat) {
    fd !in s.table && s'.table == s.table[fd := i]
  }

  /** A close call: one that failed may have released the number all the same. */
  ghost predicate Closes(s: State, s': State, fd: nat, ok: bool) {
    s'.table == s.table - {fd} || (!ok && s'.table == s.table)
  }

  ghost predicate OpensDir(s: State, s': State, i: nat, fd: nat, pc': Pc)
    requires Touches(s, s', i)
  {
    var p := s.procs[i];
    && s'.files == s.files && Opens(s, s', i, fd)
    && s'.procs[i] == p.(pc := pc', dirs := p.dirs + [fd], opens := p.opens + 1)
  }

  ghost predicate BeginStep(s: State, s': State, i: nat)
    requires Touches(s, s', i) && s.procs[i].pc.Begin?
  {
    || Goes(s, s', i, Exited(false))
    || (|s.puts[i].data| <= s.maximum && exists fd :: OpensDir(s, s', i, fd, Rooted))
  }

  /** The shard is opened and inspected. */
  ghost predicate RootedStep(s: State, s': State, i: nat)
    requires Touches(s, s', i) && s.procs[i].pc.Rooted?
  {
    || Goes(s, s', i, Leaving(false))
    || (exists fd :: OpensDir(s, s', i, fd, Checking(AtFirst)))
    || (exists fd :: OpensDir(s, s', i, fd, Leaving(false)))
  }

  /** What a read leads to when it fails or does not compare, and when it does. */
  function Refusing(site: Site): Pc {
    if site.AtFirst? then Leaving(false) else Unlinking(SiteTemp(site), false)
  }

  function Accepting(site: Site): Pc {
    match site
    case AtFirst => Leaving(true)
    case AtConflict(t) => Syncing(Some(t))
    case AtEnd(left) => Unlinking(left, true)
  }

  /** What is under the put's name compares; the final check also looks at the length. */
  ghost predicate Passes(s: State, i: nat, site: Site)
    requires i < |s.puts|
  {
    var p := s.puts[i];
    && p.Target() in s.files && |s.files[p.Target()]| <= s.maximum && p.Matches(s.files[p.Target()])
    && (site.AtEnd? ==> |s.files[p.Target()]| == |p.data|)
  }

  /** The artifact is opened for reading; at first it may not be there. */
  ghost predicate CheckStep(s: State, s': State, i: nat)
    requires Touches(s, s', i) && s.procs[i].pc.Checking?
  {
    var p, site := s.procs[i], s.procs[i].pc.site;
    || Goes(s, s', i, Refusing(site))
    || (site.AtFirst? && s.puts[i].Target() !in s.files && Goes(s, s', i, Creating))
    || (s.puts[i].Target() in s.files && exists fd :: OpensRead(s, s', i, fd, site))
  }

  ghost predicate OpensRead(s: State, s': State, i: nat, fd: nat, site: Site)
    requires Touches(s, s', i)
  {
    && s'.files == s.files && Opens(s, s', i, fd)
    && s'.procs[i] == s.procs[i].(pc := Reading(fd, site), opens := s.procs[i].opens + 1)
  }

  /** It is read, compared and closed. */
  ghost predicate ReadStep(s: State, s': State, i: nat)
    requires Touches(s, s', i) && s.procs[i].pc.Reading?
  {
    var p, fd, site := s.procs[i], s.procs[i].pc.fd, s.procs[i].pc.site;
    && s'.files == s.files
    && (|| (&& Closes(s, s', fd, false)
            && s'.procs[i] == p.(pc := Refusing(site), closes := p.closes + 1))
        || (&& Closes(s, s', fd, true) && Passes(s, i, site)
            && s'.procs[i] == p.(pc := Accepting(site), closes := p.closes + 1)))
  }

  /** No put has this temporary name to deal with. */
  ghost predicate Unclaimed(s: State, temp: nat) {
    forall j | 0 <= j < |s.procs| :: Temp(s.procs[j].pc) != Some(temp)
  }

  /** Exclusive creation, of a name that is neither there nor still some put's. */
  ghost predicate Creates(s: State, s': State, i: nat, fd: nat, temp: nat)
    requires Touches(s, s', i)
  {
    var p := s.procs[i];
    && Temporary(temp) !in s.files && Unclaimed(s, temp) && Opens(s, s', i, fd)
    && s'.files == s.files[Temporary(temp) := []]
    && s'.procs[i] == p.(pc := Opened(fd, temp), opens := p.opens + 1)
  }

  ghost predicate CreateStep(s: State, s': State, i: nat)
    requires Touches(s, s', i) && s.procs[i].pc.Creating?
  {
    Goes(s, s', i, Leaving(false)) || exists fd: nat, temp: nat :: Creates(s, s', i, fd, temp)
  }

  ghost predicate OpenedStep(s: State, s': State, i: nat)
    requires Touches(s, s', i) && s.procs[i].pc.Opened?
  {
    var pc := s.procs[i].pc;
    Goes(s, s', i, Writing(pc.fd, pc.temp, 0)) || Goes(s, s', i, CleanupClose(pc.fd, pc.temp))
  }

  /** A write call took some, not necessarily all, of the remaining bytes. */
  ghost predicate Wrote(s: State, s': State, i: nat, count: nat)
    requires Touches(s, s', i) && s.procs[i].pc.Writing?
  {
    var data, p, pc := s.puts[i].data, s.procs[i], s.procs[i].pc;
    var temp := Temporary(pc.temp);
    && 0 < count && pc.written + count <= |data| && temp in s.files && s'.table == s.table
    && s'.files == s.files[temp := s.files[temp] + data[pc.written..pc.written + count]]
    && s'.procs[i] == p.(pc := pc.(written := pc.written + count))
  }

  ghost predicate WriteStep(s: State, s': State, i: nat)
    requires Touches(s, s', i) && s.procs[i].pc.Writing?
  {
    var data, pc := s.puts[i].data, s.procs[i].pc;
    || Goes(s, s', i, CleanupClose(pc.fd, pc.temp))
    || (exists count :: Wrote(s, s', i, count))
    || (pc.written == |data| && Goes(s, s', i, Closing(pc.fd, pc.temp)))
  }

  /** Closing on the way to publication: whatever happens, the descriptor is given up. */
  ghost predicate CloseStep(s: State, s': State, i: nat)
    requires Touches(s, s', i) && s.procs[i].pc.Closing?
  {
    var p, pc := s.procs[i], s.procs[i].pc;
    && s'.files == s.files
    && (|| (&& Closes(s, s', pc.fd, true)
            && s'.procs[i] == p.(pc := Renaming(pc.temp), closes := p.closes + 1))
        || (&& Closes(s, s', pc.fd, false)
            && s'.procs[i] == p.(pc := Unlinking(Some(pc.temp), false), closes := p.closes + 1)))
  }

  /** Closing during cleanup: a failure leaves the temporary name behind. */
  ghost predicate CleanupCloseStep(s: State, s': State, i: nat)
    requires Touches(s, s', i) && s.procs[i].pc.CleanupClose?
  {
    var p, pc := s.procs[i], s.procs[i].pc;
    && s'.files == s.files
    && (|| (&& Closes(s, s', pc.fd, true)
            && s'.procs[i] == p.(pc := Unlinking(Some(pc.temp), false), closes := p.closes + 1))
        || (&& Closes(s, s', pc.fd, false)
            && s'.procs[i] == p.(pc := Leaving(false), closes := p.closes + 1, residue := Some(pc.temp))))
  }

  /** The no-clobber rename takes place, whether or not the call reports it. */
  ghost predicate Publishes(s: State, s': State, i: nat, pc': Pc)
    requires Touches(s, s', i) && s.procs[i].pc.Renaming?
  {
    var temp, target := Temporary(s.procs[i].pc.temp), s.puts[i].Target();
    && target !in s.files && temp in s.files && s'.table == s.table
    && s'.files == (s.files - {temp})[target := s.files[temp]]
    && s'.procs[i] == s.procs[i].(pc := pc')
  }

  ghost predicate RenameStep(s: State, s': State, i: nat)
    requires Touches(s, s', i) && s.procs[i].pc.Renaming?
  {
    var temp := s.procs[i].pc.temp;
    || Goes(s, s', i, Unlinking(Some(temp), false))
    || (s.puts[i].Target() in s.files && Goes(s, s', i, Checking(AtConflict(temp))))
    || Publishes(s, s', i, Syncing(None))
    || Publishes(s, s', i, Unlinking(Some(temp), false))
  }

  ghost predicate SyncStep(s: State, s': State, i: nat)
    requires Touches(s, s', i) && s.procs[i].pc.Syncing?
  {
    var left := s.procs[i].pc.leftover;
    Goes(s, s', i, Checking(AtEnd(left))) || Goes(s, s', i, Unlinking(left, false))
  }

  /** A name that is not there counts as removed. */
  ghost predicate UnlinkStep(s: State, s': State, i: nat)
    requires Touches(s, s', i) && s.procs[i].pc.Unlinking?
  {
    var p, pc := s.procs[i], s.procs[i].pc;
    && s'.table == s.table
    && match pc.leftover
       case None => Goes(s, s', i, Leaving(pc.ok))
       case Some(temp) =>
         || (s'.files == s.files - {Temporary(temp)} && s'.procs[i] == p.(pc := Leaving(pc.ok)))
         || (s'.files == s.files && s'.procs[i] == p.(pc := Leaving(false), residue := Some(temp)))
  }

  /** The shard, then the root is closed, each whatever happened to the one before. */
  ghost predicate LeaveStep(s: State, s': State, i: nat)
    requires Touches(s, s', i) && s.procs[i].pc.Leaving?
  {
    var p, ok := s.procs[i], s.procs[i].pc.ok;
    if p.dirs == [] then Goes(s, s', i, Exited(ok)) else
    var last := |p.dirs| - 1;
    && s'.files == s.files
    && (|| (&& Closes(s, s', p.dirs[last], true)
            && s'.procs[i] == p.(pc := Leaving(ok), dirs := p.dirs[..last], closes := p.closes + 1))
        || (&& Closes(s, s', p.dirs[last], false)
            && s'.procs[i] == p.(pc := Leaving(false), dirs := p.dirs[..last], closes := p.closes + 1)))
  }

  ghost predicate Step(s: State, s': State, i: nat) {
    && Touches(s, s', i)
    && match s.procs[i].pc
       case Begin => BeginStep(s, s', i)
       case Rooted => RootedStep(s, s', i)
       case Checking(_) => CheckStep(s, s', i)
       case Reading(_, _) => ReadStep(s, s', i)
       case Creating => CreateStep(s, s', i)
       case Opened(_, _) => OpenedStep(s, s', i)
       case Writing(_, _, _) => WriteStep(s, s', i)
       case Closing(_, _) => CloseStep(s, s', i)
       case Renaming(_) => RenameStep(s, s', i)
       case Syncing(_) => SyncStep(s, s', i)
       case CleanupClose(_, _) => CleanupCloseStep(s, s', i)
       case Unlinking(_, _) => UnlinkStep(s, s', i)
       case Leaving(_) => LeaveStep(s, s', i)
       case Exited(_) => s' == s
  }

  // ----- the invariant -----

  /** The descriptor of the temporary file or of a read, while the put has to close it. */
  function Fd(pc: Pc): Option<nat> {
    match pc
    case Reading(fd, _) => Some(fd)
    case Opened(fd, _) => Some(fd)
    case Writing(fd, _, _) => Some(fd)
    case Closing(fd, _) => Some(fd)
    case CleanupClose(fd, _) => Some(fd)
    case _ => None
  }

  /** All the descriptors a put has to close, the next one last. */
  function Held(p: Proc): seq<nat> {
    if Fd(p.pc).Some? then p.dirs + [Fd(p.pc).value] else p.dirs
  }

  /** What is under the temporary name until the put is done with writing and renaming. */
  ghost predicate TempHolds(s: State, i: nat)
    requires i < |s.procs| == |s.puts|
  {
    var pc, data := s.procs[i].pc, s.puts[i].data;
    && (pc.Opened? ==> Temporary(pc.temp) in s.files && s.files[Temporary(pc.temp)] == [])
    && (pc.Writing? ==> && pc.written <= |data| && Temporary(pc.temp) in s.files
                        && s.files[Temporary(pc.temp)] == data[..pc.written])
    && (pc.Closing? ==> Temporary(pc.temp) in s.files && s.files[Temporary(pc.temp)] == data)
    && (pc.Renaming? ==> Temporary(pc.temp) in s.files && s.files[Temporary(pc.temp)] == data)
  }

  /** A put's open descriptors are its own, all different, and exactly those not yet closed. */
  ghost predicate DescriptorsHeld(s: State, i: nat)
    requires i < |s.procs| == |s.puts|
  {
    var p := s.procs[i];
    var h := Held(p);
    && (forall k | 0 <= k < |h| :: h[k] in s.table && s.table[h[k]] == i)
    && (forall k, l | 0 <= k < l < |h| :: h[k] != h[l])
    && p.opens == p.closes + |h|
  }

  ghost predicate DirsHeld(p: Proc) {
    |p.dirs| <= 2 && (p.pc.Begin? || p.pc.Exited? ==> p.dirs == []) && (p.pc.Rooted? ==> |p.dirs| == 1)
  }

  ghost predicate TempsDiffer(s: State) {
    forall i, j | 0 <= i < |s.procs| && 0 <= j < |s.procs|
                  && Temp(s.procs[i].pc).Some? && Temp(s.procs[i].pc) == Temp(s.procs[j].pc) :: i == j
  }

  /** A put past its check has matching bytes under its name. */
  ghost predicate Published(s: State, i: nat)
    requires i < |s.procs| == |s.puts|
  {
    var pc, p := s.procs[i].pc, s.puts[i];
    && (pc == Exited(true) || pc == Leaving(true) || (pc.Unlinking? && pc.ok) ==>
          p.Target() in s.files && p.Matches(s.files[p.Target()]) && |s.files[p.Target()]| <= s.maximum)
    && (pc.Unlinking? && pc.ok ==> |s.files[p.Target()]| == |p.data|)
  }

  /** No torn artifact: what is under an artifact name was there before, or is all of some put's data. */
  ghost predicate Genuine(base: map<Name, Bytes>, s: State) {
    forall n | n in s.files && n.Artifact? ::
      (n in base && base[n] == s.files[n]) || exists i :: 0 <= i < |s.puts| && IsDataOf(s, n, i)
  }

  ghost predicate IsDataOf(s: State, n: Name, i: nat)
    requires i < |s.puts| && n in s.files
  {
    n == s.puts[i].Target() && s.files[n] == s.puts[i].data && |s.puts[i].data| <= s.maximum
  }

  /** Every temporary name was there before, or is a live put's, or one whose cleanup failed. */
  ghost predicate Owned(base: map<Name, Bytes>, s: State) {
    forall t: nat | Temporary(t) in s.files ::
      Temporary(t) in base || exists i :: 0 <= i < |s.procs| && Owns(s.procs[i], t)
  }

  ghost predicate Owns(p: Proc, t: nat) {
    Temp(p.pc) == Some(t) || p.residue == Some(t)
  }

  /** A put past its first check has data within the limit. */
  ghost predicate Fits(s: State, i: nat)
    requires i < |s.procs| == |s.puts|
  {
    !s.procs[i].pc.Begin? && !s.procs[i].pc.Exited? ==> |s.puts[i].data| <= s.maximum
  }

  ghost predicate PutOk(s: State, i: nat)
    requires i < |s.procs| == |s.puts|
  {
    && TempHolds(s, i) && DescriptorsHeld(s, i) && DirsHeld(s.procs[i]) && Published(s, i) && Fits(s, i)
    && (s.procs[i].residue.Some? ==> s.procs[i].pc.Leaving? || s.procs[i].pc.Exited?)
  }

  ghost predicate Inv(base: map<Name, Bytes>, s: State) {
    && |s.procs| == |s.puts| && TempsDiffer(s)
    && (forall i | 0 <= i < |s.procs| :: PutOk(s, i))
    && Genuine(base, s) && Owned(base, s)
  }

  // ----- every step keeps it -----

  ghost predicate Kept(s: State, s': State) {
    forall n | n in s.files && n.Artifact? :: n in s'.files && s'.files[n] == s.files[n]
  }

  /** Everybody else's descriptors stay. */
  ghost predicate TableKept(s: State, s': State, i: nat) {
    forall fd | fd in s.table && s.table[fd] != i :: fd in s'.table && s'.table[fd] == s.table[fd]
  }

  /** Put `i` touches only its own temporary name, its own descriptors, and names nobody had. */
  ghost predicate Frame(s: State, s': State, i: nat) {
    && Touches(s, s', i) && Kept(s, s') && TableKept(s, s', i)
    && (forall t: nat | Temporary(t) in s.files && Temp(s.procs[i].pc) != Some(t) ::
          Temporary(t) in s'.files && s'.files[Temporary(t)] == s.files[Temporary(t)])
    && var t' := Temp(s'.procs[i].pc);
       t'.None? || t' == Temp(s.procs[i].pc) || Unclaimed(s, t'.value)
  }

  lemma OthersKept(base: map<Name, Bytes>, s: State, s': State, i: nat, j: nat)
    requires Inv(base, s) && Frame(s, s', i) && j < |s.procs| && j != i
    ensures PutOk(s', j)
    ensures Temp(s.procs[j].pc).Some? ==> Temp(s'.procs[i].pc) != Temp(s.procs[j].pc)
  {
    hide Genuine, Owned;
    assert PutOk(s, j);
  }

  lemma Maintains(base: map<Name, Bytes>, s: State, s': State, i: nat)
    requires Inv(base, s) && Frame(s, s', i) && PutOk(s', i) && Genuine(base, s') && Owned(base, s')
    ensures Inv(base, s')
  {
    hide Genuine, Owned, Frame, PutOk;
    FrameTouches(s, s', i);
    forall j | 0 <= j < |s.procs| ensures PutOk(s', j) {
      if j != i { OthersKept(base, s, s', i, j); }
    }
    forall j, k | 0 <= j < |s.procs| && 0 <= k < |s.procs|
                  && Temp(s'.procs[j].pc).Some? && Temp(s'.procs[j].pc) == Temp(s'.procs[k].pc)
      ensures j == k
    {
      if j == i && k != i { OthersKept(base, s, s', i, k); }
      if k == i && j != i { OthersKept(base, s, s', i, j); }
    }
  }

  lemma FrameTouches(s: State, s': State, i: nat)
    requires Frame(s, s', i)
    ensures Touches(s, s', i)
  {
  }

  /** Nothing new under any name: what was genuine and owned stays so. */
  lemma NothingNew(base: map<Name, Bytes>, s: State, s': State, i: nat)
    requires Inv(base, s) && Touches(s, s', i)
    requires forall n | n in s'.files && n.Artifact? :: n in s.files && s'.files[n] == s.files[n]
    requires forall t: nat | Temporary(t) in s'.files :: Temporary(t) in s.files || Owns(s'.procs[i], t)
    requires forall t: nat | Owns(s.procs[i], t) && Temporary(t) in s'.files :: Owns(s'.procs[i], t)
    ensures Genuine(base, s') && Owned(base, s')
  {
    hide PutOk, TempsDiffer;
    forall n | n in s'.files && n.Artifact?
      ensures (n in base && base[n] == s'.files[n]) || exists k :: 0 <= k < |s'.puts| && IsDataOf(s', n, k)
    {
      if !(n in base && base[n] == s.files[n]) {
        var k :| 0 <= k < |s.puts| && IsDataOf(s, n, k);
        assert IsDataOf(s', n, k);
      }
    }
    forall t: nat | Temporary(t) in s'.files
      ensures Temporary(t) in base || exists k :: 0 <= k < |s'.procs| && Owns(s'.procs[k], t)
    {
      if !Owns(s'.procs[i], t) && Temporary(t) !in base {
        var k :| 0 <= k < |s.procs| && Owns(s.procs[k], t);
        assert Owns(s'.procs[k], t);
      }
    }
  }

  /** A step that changes no file and hands no name on. */
  lemma QuietKeeps(base: map<Name, Bytes>, s: State, s': State, i: nat)
    requires Inv(base, s) && Touches(s, s', i) && s'.files == s.files && TableKept(s, s', i) && PutOk(s', i)
    requires Temp(s'.procs[i].pc) == Temp(s.procs[i].pc) || Temp(s'.procs[i].pc).None?
    requires forall t | Owns(s.procs[i], t) :: Owns(s'.procs[i], t)
    ensures Inv(base, s') && Kept(s, s')
  {
    hide Inv, PutOk, TableKept;
    NothingNew(base, s, s', i);
    assert Frame(s, s', i);
    Maintains(base, s, s', i);
  }

  lemma OwnOk(base: map<Name, Bytes>, s: State, i: nat)
    requires Inv(base, s) && i < |s.procs|
    ensures |s.procs| == |s.puts| && PutOk(s, i)
  {
  }

  /** A step that only moves the program counter, keeping the temporary name. */
  lemma MoveKeeps(base: map<Name, Bytes>, s: State, s': State, i: nat, pc': Pc)
    requires Inv(base, s) && Touches(s, s', i) && Goes(s, s', i, pc')
    requires Fd(pc') == Fd(s.procs[i].pc) && DirsHeld(s'.procs[i]) && Temp(pc') == Temp(s.procs[i].pc)
    requires s.procs[i].residue.Some? ==> pc'.Leaving? || pc'.Exited?
    requires TempHolds(s', i) && Published(s', i) && Fits(s', i)
    ensures Inv(base, s') && Kept(s, s')
  {
    hide Inv;
    OwnOk(base, s, i);
    assert DescriptorsHeld(s', i);
    QuietKeeps(base, s, s', i);
  }

  /** One more descriptor is open. */
  lemma DescriptorOpened(s: State, s': State, i: nat, fd: nat)
    requires Touches(s, s', i) && DescriptorsHeld(s, i) && Opens(s, s', i, fd)
    requires var p, p' := s.procs[i], s'.procs[i];
             Held(p') == Held(p) + [fd] && p'.opens == p.opens + 1 && p'.closes == p.closes
    ensures DescriptorsHeld(s', i) && TableKept(s, s', i)
  {
    var h, h' := Held(s.procs[i]), Held(s'.procs[i]);
    assert forall k | 0 <= k < |h| :: h'[k] == h[k] && h[k] in s.table;
  }

  /** The last one is closed. */
  lemma DescriptorClosed(s: State, s': State, i: nat, fd: nat, ok: bool)
    requires Touches(s, s', i) && DescriptorsHeld(s, i) && Closes(s, s', fd, ok)
    requires var p, p' := s.procs[i], s'.procs[i];
             Held(p) == Held(p') + [fd] && p'.opens == p.opens && p'.closes == p.closes + 1
    ensures DescriptorsHeld(s', i) && TableKept(s, s', i)
  {
    var h, h' := Held(s.procs[i]), Held(s'.procs[i]);
    assert h[|h'|] == fd;
    assert forall k | 0 <= k < |h'| :: h'[k] == h[k];
  }

  lemma DirOpened(base: map<Name, Bytes>, s: State, s': State, i: nat, fd: nat, pc': Pc)
    requires Inv(base, s) && Touches(s, s', i) && OpensDir(s, s', i, fd, pc') && DirsHeld(s'.procs[i])
    requires s.procs[i].pc.Begin? || s.procs[i].pc.Rooted?
    requires (pc' == Rooted || pc' == Checking(AtFirst) || pc' == Leaving(false)) && Fits(s', i)
    ensures Inv(base, s') && Kept(s, s')
  {
    hide Inv, DescriptorsHeld;
    OwnOk(base, s, i);
    DescriptorOpened(s, s', i, fd);
    QuietKeeps(base, s, s', i);
  }

  lemma BeginKeeps(base: map<Name, Bytes>, s: State, s': State, i: nat)
    requires Inv(base, s) && Touches(s, s', i) && s.procs[i].pc.Begin? && BeginStep(s, s', i)
    ensures Inv(base, s') && Kept(s, s')
  {
    hide Inv, DescriptorsHeld;
    OwnOk(base, s, i);
    if Goes(s, s', i, Exited(false)) {
      MoveKeeps(base, s, s', i, Exited(false));
    } else {
      var fd :| OpensDir(s, s', i, fd, Rooted);
      DirOpened(base, s, s', i, fd, Rooted);
    }
  }

  lemma RootedKeeps(base: map<Name, Bytes>, s: State, s': State, i: nat)
    requires Inv(base, s) && Touches(s, s', i) && s.procs[i].pc.Rooted? && RootedStep(s, s', i)
    ensures Inv(base, s') && Kept(s, s')
  {
    hide Inv, DescriptorsHeld;
    OwnOk(base, s, i);
    if Goes(s, s', i, Leaving(false)) {
      MoveKeeps(base, s, s', i, Leaving(false));
    } else if s'.procs[i].pc.Checking? {
      var fd :| OpensDir(s, s', i, fd, Checking(AtFirst));
      DirOpened(base, s, s', i, fd, Checking(AtFirst));
    } else {
      var fd :| OpensDir(s, s', i, fd, Leaving(false));
      DirOpened(base, s, s', i, fd, Leaving(false));
    }
  }

  lemma CheckKeeps(base: map<Name, Bytes>, s: State, s': State, i: nat)
    requires Inv(base, s) && Touches(s, s', i) && s.procs[i].pc.Checking? && CheckStep(s, s', i)
    ensures Inv(base, s') && Kept(s, s')
  {
    hide Inv, DescriptorsHeld;
    OwnOk(base, s, i);
    var site := s.procs[i].pc.site;
    if Goes(s, s', i, Refusing(site)) {
      MoveKeeps(base, s, s', i, Refusing(site));
    } else if s'.procs[i].pc.Creating? {
      MoveKeeps(base, s, s', i, Creating);
    } else {
      var fd :| OpensRead(s, s', i, fd, site);
      DescriptorOpened(s, s', i, fd);
      QuietKeeps(base, s, s', i);
    }
  }

  lemma ReadKeeps(base: map<Name, Bytes>, s: State, s': State, i: nat)
    requires Inv(base, s) && Touches(s, s', i) && s.procs[i].pc.Reading? && ReadStep(s, s', i)
    ensures Inv(base, s') && Kept(s, s')
  {
    hide Inv, DescriptorsHeld;
    OwnOk(base, s, i);
    DescriptorClosed(s, s', i, s.procs[i].pc.fd, Closes(s, s', s.procs[i].pc.fd, true));
    QuietKeeps(base, s, s', i);
  }

  lemma CreateKeeps(base: map<Name, Bytes>, s: State, s': State, i: nat)
    requires Inv(base, s) && Touches(s, s', i) && s.procs[i].pc.Creating? && CreateStep(s, s', i)
    ensures Inv(base, s') && Kept(s, s')
  {
    hide Inv, DescriptorsHeld, Unclaimed;
    OwnOk(base, s, i);
    if Goes(s, s', i, Leaving(false)) {
      MoveKeeps(base, s, s', i, Leaving(false));
    } else {
      var fd, temp :| Creates(s, s', i, fd, temp);
      DescriptorOpened(s, s', i, fd);
      NothingNew(base, s, s', i);
      Maintains(base, s, s', i);
    }
  }

  lemma OpenedKeeps(base: map<Name, Bytes>, s: State, s': State, i: nat)
    requires Inv(base, s) && Touches(s, s', i) && s.procs[i].pc.Opened? && OpenedStep(s, s', i)
    ensures Inv(base, s') && Kept(s, s')
  {
    hide Inv, DescriptorsHeld;
    OwnOk(base, s, i);
    MoveKeeps(base, s, s', i, s'.procs[i].pc);
  }

  lemma WriteKeeps(base: map<Name, Bytes>, s: State, s': State, i: nat)
    requires Inv(base, s) && Touches(s, s', i) && s.procs[i].pc.Writing? && WriteStep(s, s', i)
    ensures Inv(base, s') && Kept(s, s')
  {
    hide Inv, DescriptorsHeld, Wrote;
    OwnOk(base, s, i);
    var pc, data := s.procs[i].pc, s.puts[i].data;
    if Goes(s, s', i, CleanupClose(pc.fd, pc.temp)) {
      MoveKeeps(base, s, s', i, CleanupClose(pc.fd, pc.temp));
    } else if pc.written == |data| && Goes(s, s', i, Closing(pc.fd, pc.temp)) {
      assert data[..pc.written] == data;
      MoveKeeps(base, s, s', i, Closing(pc.fd, pc.temp));
    } else {
      var count :| Wrote(s, s', i, count);
      WroteKeeps(base, s, s', i, count);
    }
  }

  lemma WroteKeeps(base: map<Name, Bytes>, s: State, s': State, i: nat, count: nat)
    requires Inv(base, s) && Touches(s, s', i) && s.procs[i].pc.Writing? && Wrote(s, s', i, count)
    ensures Inv(base, s') && Kept(s, s')
  {
    hide Inv;
    OwnOk(base, s, i);
    var pc, data := s.procs[i].pc, s.puts[i].data;
    assert data[..pc.written] + data[pc.written..pc.written + count] == data[..pc.written + count];
    assert DescriptorsHeld(s', i);
    NothingNew(base, s, s', i);
    Maintains(base, s, s', i);
  }

  /** The one close call of the temporary file, on the way to publication or during cleanup. */
  lemma CloseKeeps(base: map<Name, Bytes>, s: State, s': State, i: nat)
    requires Inv(base, s) && Touches(s, s', i)
    requires (s.procs[i].pc.Closing? && CloseStep(s, s', i))
          || (s.procs[i].pc.CleanupClose? && CleanupCloseStep(s, s', i))
    ensures Inv(base, s') && Kept(s, s')
  {
    hide Inv, DescriptorsHeld;
    OwnOk(base, s, i);
    DescriptorClosed(s, s', i, s.procs[i].pc.fd, Closes(s, s', s.procs[i].pc.fd, true));
    QuietKeeps(base, s, s', i);
  }

  lemma RenameKeeps(base: map<Name, Bytes>, s: State, s': State, i: nat)
    requires Inv(base, s) && Touches(s, s', i) && s.procs[i].pc.Renaming? && RenameStep(s, s', i)
    ensures Inv(base, s') && Kept(s, s')
  {
    hide Inv, DescriptorsHeld, Publishes;
    OwnOk(base, s, i);
    var temp := s.procs[i].pc.temp;
    if Publishes(s, s', i, Syncing(None)) {
      PublishKeeps(base, s, s', i, Syncing(None));
    } else if Publishes(s, s', i, Unlinking(Some(temp), false)) {
      PublishKeeps(base, s, s', i, Unlinking(Some(temp), false));
    } else {
      MoveKeeps(base, s, s', i, s'.procs[i].pc);
    }
  }

  lemma PublishKeeps(base: map<Name, Bytes>, s: State, s': State, i: nat, pc': Pc)
    requires Inv(base, s) && Touches(s, s', i) && s.procs[i].pc.Renaming? && Publishes(s, s', i, pc')
    requires pc' == Syncing(None) || pc' == Unlinking(Some(s.procs[i].pc.temp), false)
    ensures Inv(base, s') && Kept(s, s')
  {
    hide Inv;
    OwnOk(base, s, i);
    assert DescriptorsHeld(s', i);
    PublishedGenuine(base, s, s', i, pc');
    PublishedOwned(base, s, s', i, pc');
    Maintains(base, s, s', i);
  }

  lemma PublishedGenuine(base: map<Name, Bytes>, s: State, s': State, i: nat, pc': Pc)
    requires Inv(base, s) && Touches(s, s', i) && s.procs[i].pc.Renaming? && Publishes(s, s', i, pc')
    ensures Genuine(base, s')
  {
    hide DescriptorsHeld, Owned, TempsDiffer;
    OwnOk(base, s, i);
    var target := s.puts[i].Target();
    assert IsDataOf(s', target, i);
    forall n | n in s'.files && n.Artifact? && n != target
      ensures (n in base && base[n] == s'.files[n]) || exists k :: 0 <= k < |s'.puts| && IsDataOf(s', n, k)
    {
      if !(n in base && base[n] == s.files[n]) {
        var k :| 0 <= k < |s.puts| && IsDataOf(s, n, k);
        assert IsDataOf(s', n, k);
      }
    }
  }

  lemma PublishedOwned(base: map<Name, Bytes>, s: State, s': State, i: nat, pc': Pc)
    requires Inv(base, s) && Touches(s, s', i) && s.procs[i].pc.Renaming? && Publishes(s, s', i, pc')
    ensures Owned(base, s')
  {
    hide PutOk, Genuine, TempsDiffer;
    OwnOk(base, s, i);
    NoResidue(base, s, i);
    forall t: nat | Temporary(t) in s'.files
      ensures Temporary(t) in base || exists k :: 0 <= k < |s'.procs| && Owns(s'.procs[k], t)
    {
      if Temporary(t) !in base {
        var k :| 0 <= k < |s.procs| && Owns(s.procs[k], t);
        assert Owns(s'.procs[k], t);
      }
    }
  }

  lemma NoResidue(base: map<Name, Bytes>, s: State, i: nat)
    requires Inv(base, s) && i < |s.procs| && !s.procs[i].pc.Leaving? && !s.procs[i].pc.Exited?
    ensures s.procs[i].residue.None?
  {
    assert PutOk(s, i);
  }

  lemma SyncKeeps(base: map<Name, Bytes>, s: State, s': State, i: nat)
    requires Inv(base, s) && Touches(s, s', i) && s.procs[i].pc.Syncing? && SyncStep(s, s', i)
    ensures Inv(base, s') && Kept(s, s')
  {
    hide Inv, DescriptorsHeld;
    OwnOk(base, s, i);
    MoveKeeps(base, s, s', i, s'.procs[i].pc);
  }

  lemma UnlinkKeeps(base: map<Name, Bytes>, s: State, s': State, i: nat)
    requires Inv(base, s) && Touches(s, s', i) && s.procs[i].pc.Unlinking? && UnlinkStep(s, s', i)
    ensures Inv(base, s') && Kept(s, s')
  {
    hide Inv;
    OwnOk(base, s, i);
    assert DescriptorsHeld(s', i);
    if s.procs[i].pc.leftover.None? || s'.procs[i].residue.Some? {
      QuietKeeps(base, s, s', i);
    } else {
      RemovalKeeps(base, s, s', i, s.procs[i].pc.leftover.value);
    }
  }

  lemma RemovalKeeps(base: map<Name, Bytes>, s: State, s': State, i: nat, temp: nat)
    requires Inv(base, s) && Touches(s, s', i) && PutOk(s', i) && s'.table == s.table
    requires Temp(s.procs[i].pc) == Some(temp) && s.procs[i].residue.None? && Temp(s'.procs[i].pc).None?
    requires s'.files == s.files - {Temporary(temp)}
    ensures Inv(base, s') && Kept(s, s')
  {
    hide Inv, PutOk;
    NothingNew(base, s, s', i);
    Maintains(base, s, s', i);
  }

  lemma LeaveKeeps(base: map<Name, Bytes>, s: State, s': State, i: nat)
    requires Inv(base, s) && Touches(s, s', i) && s.procs[i].pc.Leaving? && LeaveStep(s, s', i)
    ensures Inv(base, s') && Kept(s, s')
  {
    hide Inv, DescriptorsHeld;
    OwnOk(base, s, i);
    var p := s.procs[i];
    if p.dirs == [] {
      MoveKeeps(base, s, s', i, Exited(p.pc.ok));
    } else {
      DirClosed(base, s, s', i);
    }
  }

  lemma LastDir(p: Proc, p': Proc)
    requires p.dirs != [] && p'.dirs == p.dirs[..|p.dirs| - 1] && p.pc.Leaving? && p'.pc.Leaving?
    ensures Held(p) == Held(p') + [p.dirs[|p.dirs| - 1]]
  {
  }

  lemma OnlyFd(p: Proc, p': Proc)
    requires Fd(p.pc).Some? && Fd(p'.pc).None? && p'.dirs == p.dirs
    ensures Held(p) == Held(p') + [Fd(p.pc).value]
  {
  }

  lemma DirClosed(base: map<Name, Bytes>, s: State, s': State, i: nat)
    requires Inv(base, s) && Touches(s, s', i) && s.procs[i].pc.Leaving? && LeaveStep(s, s', i)
    requires s.procs[i].dirs != []
    ensures Inv(base, s') && Kept(s, s')
  {
    hide Inv, DescriptorsHeld, Held, Closes;
    OwnOk(base, s, i);
    var p, fd := s.procs[i], s.procs[i].dirs[|s.procs[i].dirs| - 1];
    LastDir(p, s'.procs[i]);
    if Closes(s, s', fd, true) {
      DescriptorClosed(s, s', i, fd, true);
    } else {
      DescriptorClosed(s, s', i, fd, false);
    }
    QuietKeeps(base, s, s', i);
  }

  lemma StepKeeps(base: map<Name, Bytes>, s: State, s': State, i: nat)
    requires Inv(base, s) && Step(s, s', i)
    ensures Inv(base, s') && Kept(s, s')
  {
    hide Inv, Kept, BeginStep, RootedStep, CheckStep, ReadStep, CreateStep, OpenedStep, WriteStep,
         CloseStep, RenameStep, SyncStep, CleanupCloseStep, UnlinkStep, LeaveStep;
    match s.procs[i].pc
    case Begin => BeginKeeps(base, s, s', i);
    case Rooted => RootedKeeps(base, s, s', i);
    case Checking(_) => CheckKeeps(base, s, s', i);
    case Reading(_, _) => ReadKeeps(base, s, s', i);
    case Creating => CreateKeeps(base, s, s', i);
    case Opened(_, _) => OpenedKeeps(base, s, s', i);
    case Writing(_, _, _) => WriteKeeps(base, s, s', i);
    case Closing(_, _) => CloseKeeps(base, s, s', i);
    case Renaming(_) => RenameKeeps(base, s, s', i);
    case Syncing(_) => SyncKeeps(base, s, s', i);
    case CleanupClose(_, _) => CloseKeeps(base, s, s', i);
    case Unlinking(_, _) => UnlinkKeeps(base, s, s', i);
    case Leaving(_) => LeaveKeeps(base, s, s', i);
    case Exited(_) => KeptSame(s);
  }

  lemma KeptSame(s: State)
    ensures Kept(s, s)
  {
  }

  // ----- over every run -----

  ghost predicate Next(s: State, s': State) {
    exists i :: Step(s, s', i)
  }

  ghost predicate Run(run: seq<State>) {
    && run != [] && Initial(run[0])
    && forall k | 0 <= k < |run| - 1 :: Next(run[k], run[k + 1])
  }

  lemma {:induction false} RunKeeps(run: seq<State>, k: nat)
    requires Run(run) && k < |run|
    ensures Inv(run[0].files, run[k]) && run[k].puts == run[0].puts && run[k].maximum == run[0].maximum
  {
    hide Inv, Step;
    if k == 0 {
      InitialOk(run[0]);
    } else {
      RunKeeps(run, k - 1);
      assert Next(run[k - 1], run[k]);
      var i :| Step(run[k - 1], run[k], i);
      StepKeeps(run[0].files, run[k - 1], run[k], i);
      StepTouches(run[k - 1], run[k], i);
    }
  }

  lemma InitialOk(s: State)
    requires Initial(s)
    ensures Inv(s.files, s)
  {
  }

  lemma StepTouches(s: State, s': State, i: nat)
    requires Step(s, s', i)
    ensures Touches(s, s', i)
  {
    hide BeginStep, RootedStep, CheckStep, ReadStep, CreateStep, OpenedStep, WriteStep,
         CloseStep, RenameStep, SyncStep, CleanupCloseStep, UnlinkStep, LeaveStep;
  }

  /** A published artifact never changes. */
  lemma {:induction false} ArtifactsStay(run: seq<State>, j: nat, k: nat)
    requires Run(run) && j <= k < |run|
    ensures Kept(run[j], run[k])
    decreases k
  {
    hide Inv, Step;
    if j < k {
      ArtifactsStay(run, j, k - 1);
      RunKeeps(run, k - 1);
      assert Next(run[k - 1], run[k]);
      var i :| Step(run[k - 1], run[k], i);
      StepKeeps(run[0].files, run[k - 1], run[k], i);
    }
  }

  /** And is never torn: it is an older artifact or the whole data, within the limit, of a put with that digest. */
  lemma NoTornArtifact(run: seq<State>, k: nat, n: Name)
    requires Run(run) && k < |run| && n in run[k].files && n.Artifact?
    ensures || (n in run[0].files && run[0].files[n] == run[k].files[n])
            || (exists i :: 0 <= i < |run[k].puts| && IsDataOf(run[k], n, i))
  {
    hide Run;
    RunKeeps(run, k);
  }

  /** After a put's check, matching bytes within the limit are under its name, then and ever after. */
  lemma SuccessLasts(run: seq<State>, j: nat, k: nat, i: nat)
    requires Run(run) && j <= k < |run| && i < |run[j].procs| == |run[j].puts|
    requires var pc := run[j].procs[i].pc; pc == Exited(true) || pc == Leaving(true) || (pc.Unlinking? && pc.ok)
    ensures var p := run[j].puts[i];
            && p.Target() in run[k].files && p.hash(run[k].files[p.Target()]) == p.hash(p.data)
            && |run[k].files[p.Target()]| <= run[k].maximum
            && (run[j].procs[i].pc.Unlinking? ==> |run[k].files[p.Target()]| == |p.data|)
  {
    hide Run;
    RunKeeps(run, j);
    RunKeeps(run, k);
    ArtifactsStay(run, j, k);
    assert PutOk(run[j], i);
  }

  /** What a put whose artifact is there at its first check still goes through. */
  ghost predicate OnlyReads(s: State, i: nat) {
    && i < |s.procs| == |s.puts| && s.procs[i].residue.None? && s.puts[i].Target() in s.files
    && var pc := s.procs[i].pc;
       || pc == Checking(AtFirst) || (pc.Reading? && pc.site.AtFirst?) || pc.Leaving? || pc.Exited?
  }

  lemma OnlyReadsStep(s: State, s': State, i: nat)
    requires Touches(s, s', i) && Step(s, s', i) && OnlyReads(s, i) && Kept(s, s')
    ensures OnlyReads(s', i)
  {
    hide BeginStep, RootedStep, CreateStep, OpenedStep, WriteStep, CloseStep, RenameStep, SyncStep, CleanupCloseStep,
         UnlinkStep, Opens, Closes, Passes;
  }

  /** An artifact that is there is not written again: its put never has a temporary name. */
  lemma {:induction false} PresentNotRewritten(run: seq<State>, j: nat, k: nat, i: nat)
    requires Run(run) && j <= k < |run| && i < |run[j].procs| == |run[j].puts|
    requires run[j].procs[i].pc == Checking(AtFirst) && run[j].puts[i].Target() in run[j].files
    ensures OnlyReads(run[k], i) && Temp(run[k].procs[i].pc).None?
    decreases k
  {
    hide Step, DescriptorsHeld, TempHolds, Genuine, Owned, TempsDiffer;
    RunKeeps(run, j);
    assert PutOk(run[j], i);
    if j < k {
      PresentNotRewritten(run, j, k - 1, i);
      ArtifactsStay(run, k - 1, k);
      assert Next(run[k - 1], run[k]);
      var mover :| Step(run[k - 1], run[k], mover);
      StepTouches(run[k - 1], run[k], mover);
      if mover == i { OnlyReadsStep(run[k - 1], run[k], i); }
    }
  }

  /**
   Every open descriptor of a put is its own and waits for its one close call; when the
   put has exited, on whatever path, each has had it.
   */
  lemma ClosedOnce(run: seq<State>, k: nat, i: nat)
    requires Run(run) && k < |run| && i < |run[k].procs|
    ensures var p := run[k].procs[i];
            && p.opens == p.closes + |Held(p)|
            && (forall fd | fd in Held(p) :: fd in run[k].table && run[k].table[fd] == i)
            && (p.pc.Exited? ==> p.closes == p.opens)
  {
    hide Run;
    RunKeeps(run, k);
    assert PutOk(run[k], i);
  }

  /** A close call ends the hold on the last descriptor, whether it succeeds or fails. */
  lemma CloseIsOfHeld(s: State, s': State, i: nat) returns (fd: nat)
    requires Touches(s, s', i) && Step(s, s', i) && s'.procs[i].closes != s.procs[i].closes
    ensures Held(s.procs[i]) == Held(s'.procs[i]) + [fd] && s'.procs[i].closes == s.procs[i].closes + 1
    ensures s'.table == s.table || s'.table == s.table - {fd}
  {
    hide BeginStep, RootedStep, CheckStep, CreateStep, OpenedStep, WriteStep, RenameStep, SyncStep, UnlinkStep, Held;
    NotClosing(s, s', i);
    var p := s.procs[i];
    if p.pc.Leaving? {
      LastDir(p, s'.procs[i]);
      fd := p.dirs[|p.dirs| - 1];
    } else {
      OnlyFd(p, s'.procs[i]);
      fd := p.pc.fd;
    }
  }

  /** So in every run each close call, successful or not, is on a descriptor still the put's own, and the last on it. */
  lemma ClosesOwn(run: seq<State>, k: nat, i: nat) returns (fd: nat)
    requires Run(run) && k + 1 < |run| && i < |run[k].procs| && i < |run[k + 1].procs|
    requires run[k + 1].procs[i].closes != run[k].procs[i].closes
    ensures fd in run[k].table && run[k].table[fd] == i
    ensures Held(run[k].procs[i]) == Held(run[k + 1].procs[i]) + [fd] && fd !in Held(run[k + 1].procs[i])
    ensures run[k + 1].table == run[k].table || run[k + 1].table == run[k].table - {fd}
  {
    hide Step, Genuine, Owned, TempsDiffer, TempHolds, Held;
    RunKeeps(run, k);
    assert PutOk(run[k], i);
    assert Next(run[k], run[k + 1]);
    var mover :| Step(run[k], run[k + 1], mover);
    StepTouches(run[k], run[k + 1], mover);
    fd := CloseIsOfHeld(run[k], run[k + 1], i);
    var h, h' := Held(run[k].procs[i]), Held(run[k + 1].procs[i]);
    assert h[|h'|] == fd && forall m | 0 <= m < |h'| :: h[m] == h'[m];
  }

  lemma NotClosing(s: State, s': State, i: nat)
    requires Touches(s, s', i) && Step(s, s', i)
    ensures var p := s.procs[i];
            || s'.procs[i].closes == p.closes
            || p.pc.Reading? || p.pc.Closing? || p.pc.CleanupClose? || (p.pc.Leaving? && p.dirs != [])
  {
    hide ReadStep, CloseStep, CleanupCloseStep;
  }

  /** In every state a temporary name was there before, or some put still has it or failed to remove it. */
  lemma NoTemporaryLeft(run: seq<State>, k: nat, t: nat)
    requires Run(run) && k < |run| && Temporary(t) in run[k].files
    ensures Temporary(t) in run[0].files || exists i :: 0 <= i < |run[k].procs| && Owns(run[k].procs[i], t)
  {
    hide Run;
    RunKeeps(run, k);
  }

  /** A put gives up its temporary name only by removing it, or for a failed cleanup call. */
  lemma TemporaryStep(s: State, s': State, i: nat, t: nat)
    requires Touches(s, s', i) && Step(s, s', i) && Owns(s.procs[i], t)
    requires s.procs[i].residue.Some? ==> s.procs[i].pc.Leaving? || s.procs[i].pc.Exited?
    ensures Owns(s'.procs[i], t) || Temporary(t) !in s'.files
  {
    hide BeginStep, RootedStep, CreateStep, CheckStep, WriteStep, Closes, Passes;
    if s.procs[i].pc.Writing? { WriteMoves(s, s', i); }
    if s.procs[i].pc.Checking? { CheckMoves(s, s', i); }
  }

  lemma WriteMoves(s: State, s': State, i: nat)
    requires Touches(s, s', i) && s.procs[i].pc.Writing? && WriteStep(s, s', i)
    ensures Temp(s'.procs[i].pc) == Temp(s.procs[i].pc)
  {
  }

  lemma CheckMoves(s: State, s': State, i: nat)
    requires Touches(s, s', i) && s.procs[i].pc.Checking? && CheckStep(s, s', i)
    ensures Temp(s'.procs[i].pc) == Temp(s.procs[i].pc)
  {
  }

  /** So on each put's own exit its name is gone, or its own cleanup failed, whatever other puts do. */
  lemma {:induction false} TemporaryHandled(run: seq<State>, j: nat, k: nat, i: nat, t: nat)
    requires Run(run) && j <= k < |run| && i < |run[j].procs| && Temp(run[j].procs[i].pc) == Some(t)
    ensures i < |run[k].procs|
    ensures Owns(run[k].procs[i], t) || exists m :: j < m <= k && Temporary(t) !in run[m].files
    ensures run[k].procs[i].pc.Exited? && run[k].procs[i].residue.None? ==>
              exists m :: j < m <= k && Temporary(t) !in run[m].files
    decreases k
  {
    hide Step, DescriptorsHeld, TempHolds, Genuine, Owned, TempsDiffer;
    if j < k {
      TemporaryHandled(run, j, k - 1, i, t);
      RunKeeps(run, k - 1);
      assert PutOk(run[k - 1], i);
      assert Next(run[k - 1], run[k]);
      var mover :| Step(run[k - 1], run[k], mover);
      StepTouches(run[k - 1], run[k], mover);
      if mover == i && Owns(run[k - 1].procs[i], t) { TemporaryStep(run[k - 1], run[k], i, t); }
    }
  }

  // ----- puts whose calls succeed -----

  /** A step whose system calls succeed: only the code's own comparisons may refuse. */
  ghost predicate Succeeds(s: State, s': State, i: nat) {
    && Touches(s, s', i) && Step(s, s', i)
    && var pc' := s'.procs[i].pc;
       match s.procs[i].pc
       case Begin => pc'.Exited? ==> |s.puts[i].data| > s.maximum
       case Rooted => pc'.Checking?
       case Checking(site) => pc'.Creating? || pc'.Reading?
       case Reading(_, site) => pc' == Accepting(site) || !Passes(s, i, site)
       case Creating => pc'.Opened?
       case Opened(_, _) => pc'.Writing?
       case Writing(_, _, _) => !pc'.CleanupClose?
       case Closing(_, _) => pc'.Renaming?
       case Renaming(_) => !pc'.Unlinking?
       case Syncing(_) => pc'.Checking?
       case CleanupClose(_, _) => pc'.Unlinking?
       case Unlinking(_, ok) => pc' == Leaving(ok) && s'.procs[i].residue == s.procs[i].residue
       case Leaving(ok) => pc' == Leaving(ok) || pc' == Exited(ok)
       case Exited(_) => true
  }

  /** The put rests, or moves by calls that succeed. */
  ghost predicate Smooth(s: State, s': State, i: nat) {
    && i < |s.procs| == |s'.procs|
    && (s'.procs[i] == s.procs[i] || Succeeds(s, s', i))
  }

  /** The put has not failed, and from its lost race or its publication on its name is taken. */
  ghost predicate OnCourse(s: State, i: nat)
    requires i < |s.procs| == |s.puts|
  {
    var pc := s.procs[i].pc;
    && s.procs[i].residue.None? && !pc.CleanupClose?
    && (pc.Unlinking? || pc.Leaving? || pc.Exited? ==> pc.ok)
    && (pc.Syncing? || pc.Reading? || (pc.Checking? && !pc.site.AtFirst?) ==> s.puts[i].Target() in s.files)
  }

  /** Only this put's bytes are, or are to be put, under its name. */
  ghost predicate OneContent(s: State, i: nat)
    requires i < |s.puts|
  {
    var p := s.puts[i];
    && HasContent(s, i)
    && (forall j | 0 <= j < |s.puts| :: s.puts[j].Target() == p.Target() ==> s.puts[j].data == p.data)
  }

  ghost predicate HasContent(s: State, i: nat)
    requires i < |s.puts|
  {
    s.puts[i].Target() in s.files ==> s.files[s.puts[i].Target()] == s.puts[i].data
  }

  lemma ContentStays(run: seq<State>, k: nat, i: nat)
    requires Run(run) && k < |run| && i < |run[0].puts| && OneContent(run[0], i)
    ensures i < |run[k].puts| && HasContent(run[k], i)
  {
    hide Run;
    RunKeeps(run, k);
  }

  lemma ContentPasses(s: State, i: nat, site: Site)
    requires i < |s.puts| && HasContent(s, i) && s.puts[i].Target() in s.files && |s.puts[i].data| <= s.maximum
    ensures Passes(s, i, site)
  {
  }

  /** The states up to the end of the writes. */
  predicate Preparing(pc: Pc) {
    pc.Begin? || pc.Rooted? || pc.Creating? || pc.Opened? || pc.Writing?
  }

  lemma StaysOnCourse(s: State, s': State, i: nat)
    requires Touches(s, s', i) && Succeeds(s, s', i) && OnCourse(s, i) && HasContent(s, i)
    requires |s.puts[i].data| <= s.maximum
    ensures OnCourse(s', i)
  {
    hide Step, HasContent, Passes;
    if Preparing(s.procs[i].pc) {
      StaysOnCourseEarly(s, s', i);
    } else {
      if s.procs[i].pc.Reading? { ContentPasses(s, i, s.procs[i].pc.site); }
      StaysOnCourseLate(s, s', i);
    }
  }

  lemma StaysOnCourseEarly(s: State, s': State, i: nat)
    requires Touches(s, s', i) && Succeeds(s, s', i) && OnCourse(s, i)
    requires |s.puts[i].data| <= s.maximum && Preparing(s.procs[i].pc)
    ensures OnCourse(s', i)
  {
    hide CheckStep, ReadStep, CloseStep, RenameStep, SyncStep, CleanupCloseStep, UnlinkStep, LeaveStep, Opens, Passes;
  }

  lemma StaysOnCourseLate(s: State, s': State, i: nat)
    requires Touches(s, s', i) && Succeeds(s, s', i) && OnCourse(s, i) && !Preparing(s.procs[i].pc)
    requires s.procs[i].pc.Reading? ==> Passes(s, i, s.procs[i].pc.site)
    ensures OnCourse(s', i)
  {
    hide BeginStep, RootedStep, CreateStep, OpenedStep, WriteStep, CleanupCloseStep, Opens, Closes, Passes;
  }

  /**
   A put whose calls all succeed, with writes as partial as they may be and other puts doing
   whatever they do, never refuses: when it exits, exactly its data is under its name.
   */
  lemma {:induction false} UnfailingPutSucceeds(run: seq<State>, k: nat, i: nat)
    requires Run(run) && k < |run| && i < |run[0].procs| == |run[0].puts|
    requires |run[0].puts[i].data| <= run[0].maximum && OneContent(run[0], i)
    requires forall l | 0 <= l < k :: Smooth(run[l], run[l + 1], i)
    ensures i < |run[k].procs| == |run[k].puts| && OnCourse(run[k], i)
    ensures var p := run[0].puts[i];
            run[k].procs[i].pc.Exited? ==>
              run[k].procs[i].pc.ok && p.Target() in run[k].files && run[k].files[p.Target()] == p.data
  {
    hide Step, Succeeds, TempHolds, DescriptorsHeld, Genuine, Owned, TempsDiffer, OneContent;
    RunKeeps(run, k);
    ContentStays(run, k, i);
    if k > 0 {
      UnfailingPutSucceeds(run, k - 1, i);
      RunKeeps(run, k - 1);
      ContentStays(run, k - 1, i);
      ArtifactsStay(run, k - 1, k);
      assert Smooth(run[k - 1], run[k], i);
      if Succeeds(run[k - 1], run[k], i) {
        SucceedsTouches(run[k - 1], run[k], i);
        StaysOnCourse(run[k - 1], run[k], i);
      }
    }
    assert PutOk(run[k], i);
  }

  lemma SucceedsTouches(s: State, s': State, i: nat)
    requires Succeeds(s, s', i)
    ensures Touches(s, s', i) && Step(s, s', i)
  {
    hide Step;
  }

  // ----- and every put finishes -----

  /** How many steps a put may still take. */
  function Rank(p: Put, proc: Proc): nat {
    var n := |p.data|;
    match proc.pc
    case Begin => n + 23
    case Rooted => n + 22
    case Checking(site) => (match site case AtFirst => n + 21 case AtConflict(_) => 14 case AtEnd(_) => 11)
    case Reading(_, site) => (match site case AtFirst => n + 20 case AtConflict(_) => 13 case AtEnd(_) => 10)
    case Creating => n + 19
    case Opened(_, _) => n + 18
    case Writing(_, _, written) => if written <= n then n - written + 17 else 17
    case Closing(_, _) => 16
    case Renaming(_) => 15
    case Syncing(_) => 12
    case CleanupClose(_, _) => 9
    case Unlinking(_, _) => 8
    case Leaving(_) => 1 + |proc.dirs|
    case Exited(_) => 0
  }

  lemma StepDescends(base: map<Name, Bytes>, s: State, s': State, i: nat)
    requires Inv(base, s) && Touches(s, s', i) && Step(s, s', i) && !s.procs[i].pc.Exited?
    ensures Rank(s.puts[i], s'.procs[i]) < Rank(s.puts[i], s.procs[i])
  {
    hide Step, Inv, Rank, DescriptorsHeld;
    OwnOk(base, s, i);
    var pc := s.procs[i].pc;
    if Preparing(pc) {
      EarlyDescends(s, s', i);
    } else if pc.Checking? || pc.Reading? || pc.Syncing? {
      ReadDescends(s, s', i);
    } else {
      LateDescends(s, s', i);
    }
  }

  lemma EarlyDescends(s: State, s': State, i: nat)
    requires Touches(s, s', i) && Step(s, s', i) && |s.procs[i].dirs| <= 2 && Preparing(s.procs[i].pc)
    requires s.procs[i].pc.Rooted? ==> |s.procs[i].dirs| == 1
    requires s.procs[i].pc.Writing? ==> s.procs[i].pc.written <= |s.puts[i].data|
    ensures Rank(s.puts[i], s'.procs[i]) < Rank(s.puts[i], s.procs[i])
  {
    hide CheckStep, ReadStep, CloseStep, RenameStep, SyncStep, CleanupCloseStep, UnlinkStep, LeaveStep, Opens;
  }

  lemma ReadDescends(s: State, s': State, i: nat)
    requires Touches(s, s', i) && Step(s, s', i) && |s.procs[i].dirs| <= 2
    requires s.procs[i].pc.Checking? || s.procs[i].pc.Reading? || s.procs[i].pc.Syncing?
    ensures Rank(s.puts[i], s'.procs[i]) < Rank(s.puts[i], s.procs[i])
  {
    hide BeginStep, RootedStep, CreateStep, OpenedStep, WriteStep, CloseStep, RenameStep, CleanupCloseStep, UnlinkStep,
         LeaveStep, Opens, Closes, Passes;
  }

  lemma LateDescends(s: State, s': State, i: nat)
    requires Touches(s, s', i) && Step(s, s', i) && |s.procs[i].dirs| <= 2
    requires var pc := s.procs[i].pc;
             pc.Closing? || pc.Renaming? || pc.CleanupClose? || pc.Unlinking? || pc.Leaving?
    ensures Rank(s.puts[i], s'.procs[i]) < Rank(s.puts[i], s.procs[i])
  {
    hide BeginStep, RootedStep, CreateStep, OpenedStep, WriteStep, CheckStep, ReadStep, SyncStep, Closes;
  }

  lemma {:induction false} FreshDescriptor(used: set<nat>) returns (fd: nat)
    ensures forall x | x in used :: x < fd
  {
    if used == {} {
      fd := 0;
    } else {
      var x :| x in used;
      var rest := FreshDescriptor(used - {x});
      fd := if x < rest then rest else x + 1;
      forall y | y in used ensures y < fd {
        if y != x { assert y in used - {x}; }
      }
    }
  }

  lemma {:induction false} FreshName(used: set<Name>) returns (temp: nat)
    ensures forall t: nat | Temporary(t) in used :: t < temp
  {
    if used == {} {
      temp := 0;
    } else {
      var n :| n in used;
      var rest := FreshName(used - {n});
      temp := if n.Artifact? || n.token < rest then rest else n.token + 1;
      forall t: nat | Temporary(t) in used ensures t < temp {
        if Temporary(t) != n { assert Temporary(t) in used - {n}; }
      }
    }
  }

  /** The state after put `i` made its record `p'`. */
  function With(s: State, i: nat, p': Proc, files': map<Name, Bytes>, table': map<nat, nat>): State
    requires i < |s.procs|
  {
    State(files', table', s.puts, s.procs[i := p'], s.maximum)
  }

  function Moved(s: State, i: nat, pc': Pc): State
    requires i < |s.procs|
  {
    With(s, i, s.procs[i].(pc := pc'), s.files, s.table)
  }

  lemma NextOpened(s: State, i: nat) returns (s': State)
    requires i < |s.procs| == |s.puts|
    requires var pc := s.procs[i].pc;
             || (pc.Begin? && |s.puts[i].data| <= s.maximum) || pc.Rooted?
             || (pc.Checking? && s.puts[i].Target() in s.files)
    ensures Succeeds(s, s', i)
  {
    hide ReadStep, CreateStep, OpenedStep, WriteStep, CloseStep, RenameStep, SyncStep, CleanupCloseStep, UnlinkStep,
         LeaveStep, Passes;
    var p := s.procs[i];
    var fd := FreshDescriptor(s.table.Keys);
    var table' := s.table[fd := i];
    if p.pc.Checking? {
      s' := With(s, i, p.(pc := Reading(fd, p.pc.site), opens := p.opens + 1), s.files, table');
      assert OpensRead(s, s', i, fd, p.pc.site);
    } else {
      var pc' := if p.pc.Begin? then Rooted else Checking(AtFirst);
      s' := With(s, i, p.(pc := pc', dirs := p.dirs + [fd], opens := p.opens + 1), s.files, table');
      assert OpensDir(s, s', i, fd, pc');
    }
  }

  lemma NextCreated(s: State, i: nat) returns (s': State)
    requires i < |s.procs| == |s.puts| && s.procs[i].pc.Creating?
    ensures Succeeds(s, s', i)
  {
    var claimed := set p | p in s.procs && Temp(p.pc).Some? :: Temporary(Temp(p.pc).value);
    var fd := FreshDescriptor(s.table.Keys);
    var temp := FreshName(s.files.Keys + claimed);
    var p := s.procs[i];
    forall j | 0 <= j < |s.procs| ensures Temp(s.procs[j].pc) != Some(temp) {
      var t := Temp(s.procs[j].pc);
      if t.Some? { assert s.procs[j] in s.procs && Temporary(t.value) in claimed; }
    }
    s' := With(s, i, p.(pc := Opened(fd, temp), opens := p.opens + 1),
               s.files[Temporary(temp) := []], s.table[fd := i]);
    assert Creates(s, s', i, fd, temp);
  }

  lemma NextWritten(s: State, i: nat) returns (s': State)
    requires i < |s.procs| == |s.puts| && s.procs[i].pc.Writing? && TempHolds(s, i)
    ensures Succeeds(s, s', i)
  {
    var pc, data := s.procs[i].pc, s.puts[i].data;
    var temp, n := Temporary(pc.temp), |data| - pc.written;
    if n == 0 {
      s' := Moved(s, i, Closing(pc.fd, pc.temp));
    } else {
      s' := With(s, i, s.procs[i].(pc := pc.(written := pc.written + n)),
                 s.files[temp := s.files[temp] + data[pc.written..pc.written + n]], s.table);
      assert Wrote(s, s', i, n);
    }
  }

  lemma NextRead(s: State, i: nat) returns (s': State)
    requires i < |s.procs| == |s.puts| && s.procs[i].pc.Reading? && Passes(s, i, s.procs[i].pc.site)
    ensures Succeeds(s, s', i)
  {
    hide Passes;
    var p := s.procs[i];
    s' := With(s, i, p.(pc := Accepting(p.pc.site), closes := p.closes + 1), s.files, s.table - {p.pc.fd});
  }

  lemma NextPublished(s: State, i: nat) returns (s': State)
    requires i < |s.procs| == |s.puts| && s.procs[i].pc.Renaming? && TempHolds(s, i)
    ensures Succeeds(s, s', i)
  {
    var p, target := s.procs[i], s.puts[i].Target();
    var temp := Temporary(p.pc.temp);
    if target in s.files {
      s' := Moved(s, i, Checking(AtConflict(p.pc.temp)));
    } else {
      s' := With(s, i, p.(pc := Syncing(None)), (s.files - {temp})[target := s.files[temp]], s.table);
      assert Publishes(s, s', i, Syncing(None));
    }
  }

  lemma NextLeaving(s: State, i: nat) returns (s': State)
    requires i < |s.procs| == |s.puts| && OnCourse(s, i)
    requires s.procs[i].pc.Closing? || s.procs[i].pc.Unlinking? || s.procs[i].pc.Leaving?
    ensures Succeeds(s, s', i)
  {
    hide BeginStep, RootedStep, CheckStep, ReadStep, CreateStep, OpenedStep, WriteStep, RenameStep, SyncStep,
         CleanupCloseStep;
    var p := s.procs[i];
    match p.pc
    case Closing(fd, temp) =>
      s' := With(s, i, p.(pc := Renaming(temp), closes := p.closes + 1), s.files, s.table - {fd});
    case Unlinking(left, _) =>
      s' := if left.None? then Moved(s, i, Leaving(true))
            else With(s, i, p.(pc := Leaving(true)), s.files - {Temporary(left.value)}, s.table);
    case Leaving(_) =>
      if p.dirs == [] {
        s' := Moved(s, i, Exited(true));
      } else {
        var last := |p.dirs| - 1;
        s' := With(s, i, p.(dirs := p.dirs[..last], closes := p.closes + 1), s.files, s.table - {p.dirs[last]});
      }
  }

  /** Whatever other puts do, a put on its course has a succeeding step to take. */
  lemma NeverStuck(s: State, i: nat) returns (s': State)
    requires i < |s.procs| == |s.puts| && OnCourse(s, i) && !s.procs[i].pc.Exited?
    requires TempHolds(s, i) && HasContent(s, i) && |s.puts[i].data| <= s.maximum
    ensures Succeeds(s, s', i)
  {
    hide TempHolds, HasContent, Passes, BeginStep, RootedStep, ReadStep, CreateStep, WriteStep, CloseStep, RenameStep,
         CleanupCloseStep, UnlinkStep, LeaveStep, OpensRead;
    match s.procs[i].pc
    case Begin => s' := NextOpened(s, i);
    case Rooted => s' := NextOpened(s, i);
    case Checking(site) =>
      if s.puts[i].Target() in s.files { s' := NextOpened(s, i); } else { s' := Moved(s, i, Creating); }
    case Reading(_, site) =>
      ContentPasses(s, i, site);
      s' := NextRead(s, i);
    case Creating => s' := NextCreated(s, i);
    case Opened(fd, temp) => s' := Moved(s, i, Writing(fd, temp, 0));
    case Writing(_, _, _) => s' := NextWritten(s, i);
    case Renaming(_) => s' := NextPublished(s, i);
    case Syncing(left) => s' := Moved(s, i, Checking(AtEnd(left)));
    case _ => s' := NextLeaving(s, i);
  }

  /** From every state of every run, a put on its course can finish by itself, and then has succeeded. */
  lemma {:induction false} PutFinishes(run: seq<State>, i: nat) returns (run': seq<State>)
    requires Run(run) && i < |run[0].procs| == |run[0].puts| && i < |run[|run| - 1].procs|
    requires |run[0].puts[i].data| <= run[0].maximum && OneContent(run[0], i)
    requires forall l | 0 <= l < |run| - 1 :: Smooth(run[l], run[l + 1], i)
    ensures run <= run' && Run(run')
    ensures var last := run'[|run'| - 1]; i < |last.procs| && last.procs[i].pc == Exited(true)
    ensures |run'| <= |run| + Rank(run[0].puts[i], run[|run| - 1].procs[i])
    decreases Rank(run[0].puts[i], run[|run| - 1].procs[i])
  {
    hide Step, Succeeds, Initial, Genuine, Owned, TempsDiffer, DescriptorsHeld, TempHolds, OneContent, HasContent;
    var last := |run| - 1;
    var s := run[last];
    RunKeeps(run, last);
    UnfailingPutSucceeds(run, last, i);
    ContentStays(run, last, i);
    assert PutOk(s, i);
    if s.procs[i].pc.Exited? {
      run' := run;
    } else {
      var s' := NeverStuck(s, i);
      SucceedsTouches(s, s', i);
      StepDescends(run[0].files, s, s', i);
      Extended(run, s', i);
      run' := PutFinishes(run + [s'], i);
    }
  }

  lemma Extended(run: seq<State>, s': State, i: nat)
    requires Run(run) && forall l | 0 <= l < |run| - 1 :: Smooth(run[l], run[l + 1], i)
    requires Succeeds(run[|run| - 1], s', i)
    ensures Run(run + [s'])
    ensures forall l | 0 <= l < |run| :: Smooth((run + [s'])[l], (run + [s'])[l + 1], i)
  {
    hide Step, Initial;
    var longer := run + [s'];
    assert Step(run[|run| - 1], s', i);
    forall l | 0 <= l < |run| ensures Next(longer[l], longer[l + 1]) && Smooth(longer[l], longer[l + 1], i) {
      if l < |run| - 1 { assert longer[l] == run[l] && longer[l + 1] == run[l + 1]; }
    }
  }

  // ----- and every call may fail -----

  /** Where a failed call, or a failed inspection of what it yielded, takes a put. */
  function Failing(pc: Pc): Pc {
    match pc
    case Begin => Exited(false)
    case Checking(site) => Refusing(site)
    case Opened(fd, temp) => CleanupClose(fd, temp)
    case Writing(fd, temp, _) => CleanupClose(fd, temp)
    case Renaming(temp) => Unlinking(Some(temp), false)
    case Syncing(left) => Unlinking(left, false)
    case _ => Leaving(false)
  }

  lemma CallsMayFail(s: State, i: nat)
    requires i < |s.procs| == |s.puts| && (Preparing(s.procs[i].pc) || s.procs[i].pc.Checking?
                                           || s.procs[i].pc.Renaming? || s.procs[i].pc.Syncing?)
    ensures Step(s, Moved(s, i, Failing(s.procs[i].pc)), i)
  {
  }

  /** A close call that fails, having released its descriptor or not. */
  function CloseFailed(s: State, i: nat, released: bool): State
    requires i < |s.procs| && Held(s.procs[i]) != []
  {
    var p, h := s.procs[i], Held(s.procs[i]);
    var table' := if released then s.table - {h[|h| - 1]} else s.table;
    var p' := p.(closes := p.closes + 1);
    With(s, i, match p.pc
               case Reading(_, site) => p'.(pc := Refusing(site))
               case Closing(_, temp) => p'.(pc := Unlinking(Some(temp), false))
               case CleanupClose(_, temp) => p'.(pc := Leaving(false), residue := Some(temp))
               case _ => p'.(pc := Leaving(false), dirs := if p.dirs == [] then [] else p.dirs[..|p.dirs| - 1]),
         s.files, table')
  }

  lemma ClosesMayFail(s: State, i: nat, released: bool)
    requires i < |s.procs| == |s.puts| && Held(s.procs[i]) != []
    requires var pc := s.procs[i].pc; pc.Reading? || pc.Closing? || pc.CleanupClose? || pc.Leaving?
    ensures Step(s, CloseFailed(s, i, released), i)
  {
    hide BeginStep, RootedStep, CheckStep, CreateStep, OpenedStep, WriteStep, RenameStep, SyncStep, UnlinkStep, Passes;
  }

  /** A shard that does not pass inspection, a rename in doubt, a name that cannot be removed. */
  lemma OthersMayFail(s: State, i: nat, fd: nat)
    requires i < |s.procs| == |s.puts|
    ensures var p := s.procs[i];
            && (p.pc.Rooted? && fd !in s.table ==>
                  Step(s, With(s, i, p.(pc := Leaving(false), dirs := p.dirs + [fd], opens := p.opens + 1), s.files,
                               s.table[fd := i]), i))
            && (p.pc.Renaming? && s.puts[i].Target() !in s.files && Temporary(p.pc.temp) in s.files ==>
                  var temp := Temporary(p.pc.temp);
                  Step(s, With(s, i, p.(pc := Unlinking(Some(p.pc.temp), false)),
                               (s.files - {temp})[s.puts[i].Target() := s.files[temp]], s.table), i))
            && (p.pc.Unlinking? && p.pc.leftover.Some? ==>
                  Step(s, With(s, i, p.(pc := Leaving(false), residue := p.pc.leftover), s.files, s.table), i))
  {
    hide BeginStep, CheckStep, ReadStep, CreateStep, OpenedStep, WriteStep, CloseStep, SyncStep, CleanupCloseStep,
         LeaveStep;
    var p := s.procs[i];
    if p.pc.Rooted? && fd !in s.table {
      var s' := With(s, i, p.(pc := Leaving(false), dirs := p.dirs + [fd], opens := p.opens + 1), s.files,
                     s.table[fd := i]);
      assert OpensDir(s, s', i, fd, Leaving(false));
    }
  }
}
