/** The poll thread as a machine of single file effects (watcher/watcher.go:158-193,
    extractor/extractor.go:84-116, store/store.go:55-82). Every effect may fail, and the process may
    die between any two of them; memory is then reloaded from the durable store. */
module Protocol {
  import opened Text
  import opened Names
  import opened Bundle
  import opened Files

  datatype Entry = Entry(code: int, name: string)
  type Registry = map<string, Entry>

  /** One call of the sink, with the process run it happened in. */
  datatype Delivery = Delivery(run: nat, pkg: string, code: int, name: string, file: FileName,
                               checksum: Content, isXapk: bool)

  /** One extraction; `sum` is the checksum once it has been computed. */
  datatype Job = Job(pkg: string, code: int, name: string, ext: Ext, payload: Payload, sum: Content) {
    function Art(): FileName {
      Artifact(code, ext)
    }

    function Doc(): Content {
      LatestDoc(code, name, Art())
    }
  }

  datatype Phase =
    | WritingArtifact | RenamingArtifact | WritingSidecar | WritingLatest | RenamingLatest
    | ListingDir | Removing(rest: seq<FileName>) | RemovingSidecar(rest: seq<FileName>)
    | Delivering | Recording

  datatype Pc = Idle | Busy(job: Job, phase: Phase) | Saving(snapshot: Registry, renaming: bool)

  /** `attempted` remembers the code last attempted for each package: it is not part of the service. */
  datatype State = State(dirs: map<string, Dir>, durable: Registry, mem: Registry, log: seq<Delivery>,
                         run: nat, attempted: map<string, int>, pc: Pc)

  const KEEP: nat := 3
  const LATEST_TMP := Tmp(Latest)
  const INIT := State(map[], map[], map[], [], 0, map[], Idle)

  function DirOf(dirs: map<string, Dir>, pkg: string): Dir {
    if pkg in dirs then dirs[pkg] else map[]
  }

  datatype Event =
    | Attempt(job: Job)          // the gate is open and the APKs are pulled
    | Tear                       // a plain write is cut short; the process may die here
    | Advance                    // the current effect succeeds
    | Listed(order: seq<FileName>) // the directory is read and sorted
    | Skip                       // a listing or a removal fails; the code carries on
    | Fail(cleaned: bool)        // the current effect fails and the attempt is given up
    | Crash

  /** The gate of `checkPackage`. */
  predicate Gate(mem: Registry, pkg: string, code: int) {
    pkg in mem ==> mem[pkg].code < code
  }

  predicate CanAdvance(dir: Dir, job: Job, phase: Phase) {
    match phase
    case RenamingArtifact => Tmp(job.Art()) in dir
    case WritingSidecar => job.Art() in dir
    case RenamingLatest => LATEST_TMP in dir
    case ListingDir => false
    case _ => true
  }

  predicate HasTmp(phase: Phase) {
    phase.WritingArtifact? || phase.RenamingArtifact? || phase.RenamingLatest?
  }

  ghost predicate Enabled(s: State, e: Event) {
    match e
    case Attempt(job) => s.pc.Idle? && InInt64(job.code) && Gate(s.mem, job.pkg, job.code) && job.sum == Torn
    case Tear => s.pc.Busy? && (s.pc.phase.WritingArtifact? || s.pc.phase.WritingSidecar? || s.pc.phase.WritingLatest?)
    case Advance => s.pc.Saving? || (s.pc.Busy? && CanAdvance(DirOf(s.dirs, s.pc.job.pkg), s.pc.job, s.pc.phase))
    case Listed(order) => s.pc.Busy? && s.pc.phase.ListingDir?
      && IsOrder(order, VersionFiles(DirOf(s.dirs, s.pc.job.pkg)))
    case Skip => s.pc.Busy? && (s.pc.phase.ListingDir? || s.pc.phase.RemovingSidecar?
      || (s.pc.phase.Removing? && s.pc.phase.rest != []))
    case Fail(cleaned) => s.pc.Saving? || (s.pc.Busy? && (cleaned ==> HasTmp(s.pc.phase))
      && (HasTmp(s.pc.phase) || s.pc.phase.WritingSidecar? || s.pc.phase.WritingLatest?))
    case Crash => true
  }

  function TmpOf(job: Job, phase: Phase): FileName {
    if phase.RenamingLatest? || phase.WritingLatest? then LATEST_TMP else Tmp(job.Art())
  }

  function Rename(dir: Dir, src: FileName, dst: FileName): Dir {
    if src in dir then dir[dst := dir[src]] - {src} else dir
  }

  function TearFile(dir: Dir, job: Job, phase: Phase): Dir {
    if phase.WritingSidecar? then dir[Sidecar(job.Art()) := Torn] else dir[TmpOf(job, phase) := Torn]
  }

  function ContentOf(dir: Dir, name: FileName): Content {
    if name in dir then dir[name] else Torn
  }

  /** The file effect of a phase. */
  function Effect(dir: Dir, job: Job, phase: Phase): Dir {
    match phase
    case WritingArtifact => dir[Tmp(job.Art()) := Whole(job.payload)]
    case RenamingArtifact => Rename(dir, Tmp(job.Art()), job.Art())
    case WritingSidecar => dir[Sidecar(job.Art()) := Digest(ContentOf(dir, job.Art()))]
    case WritingLatest => dir[LATEST_TMP := job.Doc()]
    case RenamingLatest => Rename(dir, LATEST_TMP, Latest)
    case Removing(rest) => if rest == [] then dir else dir - {rest[0]}
    case RemovingSidecar(rest) => if rest == [] then dir else dir - {Sidecar(rest[0])}
    case _ => dir
  }

  /** What follows a phase, whether it succeeded or was skipped. */
  function Next(phase: Phase): Phase {
    match phase
    case WritingArtifact => RenamingArtifact
    case RenamingArtifact => WritingSidecar
    case WritingSidecar => WritingLatest
    case WritingLatest => RenamingLatest
    case RenamingLatest => ListingDir
    case ListingDir => Delivering
    case Removing(rest) => if rest == [] then Delivering else RemovingSidecar(rest)
    case RemovingSidecar(rest) => Removing(if rest == [] then [] else rest[1..])
    case Delivering => Recording
    case Recording => Recording
  }

  function AdvanceJob(dir: Dir, job: Job, phase: Phase): Job {
    if phase.WritingSidecar? then job.(sum := Digest(ContentOf(dir, job.Art()))) else job
  }

  function DeliveryOf(run: nat, job: Job): Delivery {
    Delivery(run, job.pkg, job.code, job.name, job.Art(), job.sum, job.ext.Xapk?)
  }

  /** Phases whose effect is on the package directory. */
  predicate Touches(phase: Phase) {
    !phase.Delivering? && !phase.Recording? && !(phase.Removing? && phase.rest == [])
  }

  function StepBusy(s: State, job: Job, phase: Phase): State {
    var dir := DirOf(s.dirs, job.pkg);
    if phase.Recording? then
      var mem := s.mem[job.pkg := Entry(job.code, job.name)];
      s.(mem := mem, pc := Saving(mem, false))
    else
      s.(dirs := if Touches(phase) then s.dirs[job.pkg := Effect(dir, job, phase)] else s.dirs,
         log := if phase.Delivering? then s.log + [DeliveryOf(s.run, job)] else s.log,
         pc := Busy(AdvanceJob(dir, job, phase), Next(phase)))
  }

  function Excess(order: seq<FileName>): seq<FileName> {
    if |order| <= KEEP then [] else order[KEEP..]
  }

  function Step(s: State, e: Event): State {
    match e
    case Attempt(job) => s.(attempted := s.attempted[job.pkg := job.code], pc := Busy(job, WritingArtifact))
    case Tear =>
      if !s.pc.Busy? then s
      else s.(dirs := s.dirs[s.pc.job.pkg := TearFile(DirOf(s.dirs, s.pc.job.pkg), s.pc.job, s.pc.phase)])
    case Advance =>
      (match s.pc
       case Idle => s
       case Busy(job, phase) => StepBusy(s, job, phase)
       case Saving(snapshot, renaming) =>
         if renaming then s.(durable := snapshot, pc := Idle) else s.(pc := Saving(snapshot, true)))
    case Listed(order) => if s.pc.Busy? then s.(pc := Busy(s.pc.job, Removing(Excess(order)))) else s
    case Skip => if s.pc.Busy? then s.(pc := Busy(s.pc.job, Next(s.pc.phase))) else s
    case Fail(cleaned) =>
      if s.pc.Busy? && cleaned then
        var dir := DirOf(s.dirs, s.pc.job.pkg);
        s.(dirs := s.dirs[s.pc.job.pkg := dir - {TmpOf(s.pc.job, s.pc.phase)}], pc := Idle)
      else s.(pc := Idle)
    case Crash => s.(mem := s.durable, run := s.run + 1, pc := Idle)
  }

  ghost predicate CanRun(s: State, es: seq<Event>)
    decreases |es|
  {
    es == [] || (Enabled(s, es[0]) && CanRun(Step(s, es[0]), es[1..]))
  }

  ghost function Final(s: State, es: seq<Event>): State
    decreases |es|
  {
    if es == [] then s else Final(Step(s, es[0]), es[1..])
  }

  lemma {:induction false} RunConcat(s: State, a: seq<Event>, b: seq<Event>)
    requires CanRun(s, a)
    ensures CanRun(s, a + b) <==> CanRun(Final(s, a), b)
    ensures Final(s, a + b) == Final(Final(s, a), b)
    decreases |a|
  {
    if a == [] {
      assert a + b == b;
    } else {
      assert (a + b)[1..] == a[1..] + b;
      RunConcat(Step(s, a[0]), a[1..], b);
    }
  }

  // Where the four copies of a package's version stand relative to each other.

  ghost predicate StoreOrdered(s: State) {
    forall p :: p in s.durable ==> p in s.mem && s.durable[p].code <= s.mem[p].code
  }

  ghost predicate LatestSound(s: State) {
    forall p :: Latest in DirOf(s.dirs, p) ==> DirOf(s.dirs, p)[Latest].LatestDoc?
  }

  ghost predicate PublishedBeforeRecorded(s: State) {
    forall p :: p in s.mem ==>
      Latest in DirOf(s.dirs, p) && DirOf(s.dirs, p)[Latest].LatestDoc?
      && s.mem[p].code <= DirOf(s.dirs, p)[Latest].code
  }

  predicate AfterLatest(phase: Phase) {
    phase.ListingDir? || phase.Removing? || phase.RemovingSidecar? || phase.Delivering? || phase.Recording?
  }

  predicate AllVersioned(rest: seq<FileName>) {
    forall n :: n in rest ==> n.Version().Some?
  }

  /** What holds at each point of an attempt. */
  predicate AtPhase(dir: Dir, mem: Registry, job: Job, phase: Phase) {
    && InInt64(job.code) && Gate(mem, job.pkg, job.code)
    && (phase.RenamingArtifact? ==> ContentOf(dir, Tmp(job.Art())) == Whole(job.payload))
    && (phase.WritingSidecar? ==> ContentOf(dir, job.Art()) == Whole(job.payload))
    && (phase.RenamingLatest? ==> ContentOf(dir, LATEST_TMP) == job.Doc())
    && (AfterLatest(phase) ==> ContentOf(dir, Latest) == job.Doc())
    && (phase.Removing? || phase.RemovingSidecar? ==> AllVersioned(phase.rest))
  }

  ghost predicate PcSound(s: State) {
    match s.pc
    case Idle => true
    case Busy(job, phase) => AtPhase(DirOf(s.dirs, job.pkg), s.mem, job, phase)
    case Saving(snapshot, _) => snapshot == s.mem
  }

  ghost predicate Sound(s: State) {
    StoreOrdered(s) && LatestSound(s) && PublishedBeforeRecorded(s) && PcSound(s)
  }

  /** No effect but the rename of latest.json touches it; pruning does not either. */
  lemma EffectOnLatest(dir: Dir, mem: Registry, job: Job, phase: Phase)
    requires AtPhase(dir, mem, job, phase) && CanAdvance(dir, job, phase)
    ensures var after := Effect(dir, job, phase);
      if phase.RenamingLatest? then Latest in after && after[Latest] == job.Doc()
      else (Latest in after <==> Latest in dir) && ContentOf(after, Latest) == ContentOf(dir, Latest)
  {
    if phase.Removing? && phase.rest != [] { assert phase.rest[0] in phase.rest; }
  }

  lemma EffectAtPhase(dir: Dir, mem: Registry, job: Job, phase: Phase)
    requires AtPhase(dir, mem, job, phase) && CanAdvance(dir, job, phase) && !phase.Recording?
    ensures AtPhase(Effect(dir, job, phase), mem, AdvanceJob(dir, job, phase), Next(phase))
  {
    EffectOnLatest(dir, mem, job, phase);
  }

  ghost predicate DiskSound(s: State) {
    StoreOrdered(s) && LatestSound(s) && PublishedBeforeRecorded(s)
  }

  /** A change to one directory is harmless when it leaves latest.json alone or moves it forward. */
  lemma ReplaceDir(s: State, t: State, pkg: string, dir: Dir)
    requires DiskSound(s) && t.dirs == s.dirs[pkg := dir] && t.mem == s.mem && t.durable == s.durable
    requires (ContentOf(dir, Latest) == ContentOf(DirOf(s.dirs, pkg), Latest)
              && (Latest in dir <==> Latest in DirOf(s.dirs, pkg)))
          || (Latest in dir && dir[Latest].LatestDoc? && Gate(s.mem, pkg, dir[Latest].code))
    ensures DiskSound(t)
  {
    assert forall p :: DirOf(t.dirs, p) == if p == pkg then dir else DirOf(s.dirs, p);
  }

  lemma BusyStepSound(s: State)
    requires Sound(s) && s.pc.Busy? && CanAdvance(DirOf(s.dirs, s.pc.job.pkg), s.pc.job, s.pc.phase)
    ensures Sound(Step(s, Advance))
  {
    var job, phase := s.pc.job, s.pc.phase;
    var t, dir := Step(s, Advance), DirOf(s.dirs, job.pkg);
    if !phase.Recording? {
      EffectOnLatest(dir, s.mem, job, phase);
      EffectAtPhase(dir, s.mem, job, phase);
      if Touches(phase) { ReplaceDir(s, t, job.pkg, Effect(dir, job, phase)); }
    }
  }

  lemma FileStepSound(s: State, e: Event)
    requires Sound(s) && Enabled(s, e) && (e.Tear? || e.Fail? || e.Listed? || e.Skip?)
    ensures Sound(Step(s, e))
  {
    var t := Step(s, e);
    if s.pc.Busy? {
      var job, phase := s.pc.job, s.pc.phase;
      var dir := DirOf(s.dirs, job.pkg);
      if e.Tear? {
        ReplaceDir(s, t, job.pkg, TearFile(dir, job, phase));
      } else if e.Fail? && e.cleaned {
        ReplaceDir(s, t, job.pkg, dir - {TmpOf(job, phase)});
      } else if e.Listed? {
        assert forall n :: n in Excess(e.order) ==> n in e.order;
      }
    }
  }

  lemma StepSound(s: State, e: Event)
    requires Sound(s) && Enabled(s, e)
    ensures Sound(Step(s, e))
  {
    match e
    case Attempt(_) =>
    case Crash =>
    case Advance => if s.pc.Busy? { BusyStepSound(s); }
    case _ => FileStepSound(s, e);
  }

  lemma {:induction false} RunSound(s: State, es: seq<Event>)
    requires Sound(s) && CanRun(s, es)
    ensures Sound(Final(s, es))
    decreases |es|
  {
    if es == [] {
    } else {
      StepSound(s, es[0]);
      RunSound(Step(s, es[0]), es[1..]);
    }
  }

  /** In every reachable state, with failures and crashes anywhere and whatever the devices report:
      durable code <= code in memory <= code in latest.json, and latest.json is never torn. */
  lemma StoreBehindDisk(es: seq<Event>, pkg: string)
    requires CanRun(INIT, es)
    ensures var s := Final(INIT, es);
      && (pkg in s.durable ==> pkg in s.mem && s.durable[pkg].code <= s.mem[pkg].code)
      && (pkg in s.mem ==> Latest in DirOf(s.dirs, pkg))
      && (Latest in DirOf(s.dirs, pkg) ==> DirOf(s.dirs, pkg)[Latest].LatestDoc?)
      && (pkg in s.mem ==> s.mem[pkg].code <= DirOf(s.dirs, pkg)[Latest].code)
  {
    RunSound(INIT, es);
  }

  predicate Concerns(pc: Pc, pkg: string) {
    pc.Busy? && pc.job.pkg == pkg
  }

  /** Only the package being extracted has its directory changed. */
  lemma DirFrame(s: State, e: Event, pkg: string)
    requires Enabled(s, e) && (e.Crash? || e.Listed? || e.Skip? || !Concerns(s.pc, pkg))
    ensures DirOf(Step(s, e).dirs, pkg) == DirOf(s.dirs, pkg)
  {
  }
}
