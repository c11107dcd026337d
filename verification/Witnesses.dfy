/** Runs that show what the service does not promise. */
module Witnesses {
  import opened Text
  import opened Names
  import opened Bundle
  import opened Files
  import opened Protocol
  import opened Published
  import opened Sink

  /** A run followed by one more event. */
  lemma Then(s: State, es: seq<Event>, e: Event) returns (more: seq<Event>)
    requires CanRun(s, es) && Enabled(Final(s, es), e)
    ensures more == es + [e] && CanRun(s, more) && Final(s, more) == Step(Final(s, es), e)
    ensures MonotoneRun(s, es) && Monotone(Final(s, es), e) ==> MonotoneRun(s, more)
  {
    more := es + [e];
    RunConcat(s, es, [e]);
    assert [e][1..] == [];
    if MonotoneRun(s, es) && Monotone(Final(s, es), e) { MonotoneThen(s, es, e); }
  }

  lemma {:induction false} MonotoneThen(s: State, es: seq<Event>, e: Event)
    requires CanRun(s, es) && MonotoneRun(s, es) && Monotone(Final(s, es), e)
    ensures MonotoneRun(s, es + [e])
    decreases |es|
  {
    if es == [] {
      assert [e][1..] == [];
    } else {
      assert (es + [e])[1..] == es[1..] + [e];
      MonotoneThen(Step(s, es[0]), es[1..], e);
    }
  }

  /** A run that ends with the given store, place and directory of one package. */
  ghost predicate At(es: seq<Event>, pkg: string, mem: Registry, durable: Registry, attempted: map<string, int>,
                     pc: Pc, dir: Dir, monotone: bool)
  {
    && CanRun(INIT, es) && (monotone ==> MonotoneRun(INIT, es))
    && var s := Final(INIT, es);
       s.mem == mem && s.durable == durable && s.attempted == attempted && s.pc == pc && DirOf(s.dirs, pkg) == dir
  }

  lemma OneEffect(es: seq<Event>, mem: Registry, durable: Registry, attempted: map<string, int>,
                  job: Job, phase: Phase, dir: Dir, monotone: bool) returns (more: seq<Event>)
    requires At(es, job.pkg, mem, durable, attempted, Busy(job, phase), dir, monotone)
    requires CanAdvance(dir, job, phase) && !phase.Recording?
    ensures At(more, job.pkg, mem, durable, attempted, Busy(AdvanceJob(dir, job, phase), Next(phase)),
               Effect(dir, job, phase), monotone)
  {
    more := Then(INIT, es, Advance);
  }

  /** An attempt up to the rename of its artifact. */
  lemma MakeArtifact(es: seq<Event>, mem: Registry, durable: Registry, attempted: map<string, int>,
                     job: Job, dir: Dir, monotone: bool) returns (more: seq<Event>)
    requires At(es, job.pkg, mem, durable, attempted, Idle, dir, monotone)
    requires Gate(mem, job.pkg, job.code) && InInt64(job.code) && job.sum == Torn && Tmp(job.Art()) !in dir
    requires monotone && job.pkg in attempted ==> attempted[job.pkg] <= job.code
    ensures At(more, job.pkg, mem, durable, attempted[job.pkg := job.code], Busy(job, WritingSidecar),
               dir[job.Art() := Whole(job.payload)], monotone)
  {
    var a := attempted[job.pkg := job.code];
    more := Then(INIT, es, Attempt(job));
    more := OneEffect(more, mem, durable, a, job, WritingArtifact, dir, monotone);
    var d := dir[Tmp(job.Art()) := Whole(job.payload)];
    more := OneEffect(more, mem, durable, a, job, RenamingArtifact, d, monotone);
    assert Effect(d, job, RenamingArtifact) == dir[job.Art() := Whole(job.payload)];
  }

  /** ... and on to the point where the directory is about to be pruned. */
  lemma PublishArtifact(es: seq<Event>, mem: Registry, durable: Registry, attempted: map<string, int>,
                        job: Job, dir: Dir, monotone: bool) returns (more: seq<Event>)
    requires At(es, job.pkg, mem, durable, attempted, Busy(job, WritingSidecar), dir, monotone)
    requires job.Art() in dir && LATEST_TMP !in dir
    ensures At(more, job.pkg, mem, durable, attempted, Busy(job.(sum := Digest(dir[job.Art()])), ListingDir),
               dir[Sidecar(job.Art()) := Digest(dir[job.Art()])][Latest := job.Doc()], monotone)
  {
    var done := job.(sum := Digest(dir[job.Art()]));
    var d1 := dir[Sidecar(job.Art()) := Digest(dir[job.Art()])];
    more := OneEffect(es, mem, durable, attempted, job, WritingSidecar, dir, monotone);
    more := OneEffect(more, mem, durable, attempted, done, WritingLatest, d1, monotone);
    var d2 := d1[LATEST_TMP := job.Doc()];
    more := OneEffect(more, mem, durable, attempted, done, RenamingLatest, d2, monotone);
    assert Effect(d2, done, RenamingLatest) == d1[Latest := job.Doc()];
  }

  lemma Die(es: seq<Event>, pkg: string, mem: Registry, durable: Registry, attempted: map<string, int>,
            pc: Pc, dir: Dir, monotone: bool) returns (more: seq<Event>)
    requires At(es, pkg, mem, durable, attempted, pc, dir, monotone)
    ensures At(more, pkg, durable, durable, attempted, Idle, dir, monotone)
  {
    more := Then(INIT, es, Crash);
  }

  function JobFor(pkg: string, code: int, payload: Payload): Job {
    Job(pkg, code, "", Apk, payload, Torn)
  }

  /** An attempt that dies right after the rename leaves its artifact and nothing else. */
  lemma Orphan(es: seq<Event>, pkg: string, attempted: map<string, int>, code: int, payload: Payload, dir: Dir)
    returns (more: seq<Event>)
    requires At(es, pkg, map[], map[], attempted, Idle, dir, false)
    requires InInt64(code) && Tmp(Artifact(code, Apk)) !in dir
    ensures At(more, pkg, map[], map[], attempted[pkg := code], Idle, dir[Artifact(code, Apk) := Whole(payload)], false)
  {
    var job := JobFor(pkg, code, payload);
    more := MakeArtifact(es, map[], map[], attempted, job, dir, false);
    more := Die(more, pkg, map[], map[], attempted[pkg := code], Busy(job, WritingSidecar),
                dir[job.Art() := Whole(payload)], false);
  }

  lemma PruneFourth(es: seq<Event>, attempted: map<string, int>, job: Job, dir: Dir, order: seq<FileName>)
    returns (more: seq<Event>)
    requires At(es, job.pkg, map[], map[], attempted, Busy(job, ListingDir), dir, false)
    requires |order| == 4 && IsOrder(order, VersionFiles(dir))
    ensures At(more, job.pkg, map[], map[], attempted, Busy(job, RemovingSidecar([order[3]])), dir - {order[3]}, false)
  {
    more := Then(INIT, es, Listed(order));
    assert order[KEEP..] == [order[3]];
    more := OneEffect(more, map[], map[], attempted, job, Removing([order[3]]), dir, false);
  }

  function ThreeTried(pkg: string, a: int, b: int, c: int): map<string, int> {
    map[][pkg := a][pkg := b][pkg := c]
  }

  function ThreeFiles(a: int, b: int, c: int, w: Content): Dir {
    map[][Artifact(a, Apk) := w][Artifact(b, Apk) := w][Artifact(c, Apk) := w]
  }

  lemma ThreeOrphans(pkg: string, a: int, b: int, c: int, payload: Payload) returns (es: seq<Event>)
    requires InInt64(a) && InInt64(b) && InInt64(c)
    ensures At(es, pkg, map[], map[], ThreeTried(pkg, a, b, c), Idle, ThreeFiles(a, b, c, Whole(payload)), false)
  {
    var w := Whole(payload);
    es := Orphan([], pkg, map[], a, payload, map[]);
    es := Orphan(es, pkg, map[][pkg := a], b, payload, map[][Artifact(a, Apk) := w]);
    es := Orphan(es, pkg, map[][pkg := a][pkg := b], c, payload, map[][Artifact(a, Apk) := w][Artifact(b, Apk) := w]);
  }

  /** The directory of the two runs below when the newly published file has just been pruned. */
  function NewestGone(a: int, b: int, c: int, job: Job): Dir {
    var w := Whole(job.payload);
    ThreeFiles(a, b, c, w)[job.Art() := w][Sidecar(job.Art()) := Digest(w)][Latest := job.Doc()] - {job.Art()}
  }

  /** Going back in versions: three newer artifacts survive from attempts that died before being recorded, and
      pruning removes the one just published. */
  lemma GoingBack(pkg: string, a: int, b: int, c: int, job: Job) returns (es: seq<Event>)
    requires job == JobFor(pkg, job.code, job.payload)
    requires InInt64(a) && InInt64(job.code) && a > b > c > job.code
    ensures At(es, pkg, map[], map[], ThreeTried(pkg, a, b, c)[pkg := job.code],
               Busy(job.(sum := Digest(Whole(job.payload))), RemovingSidecar([job.Art()])),
               NewestGone(a, b, c, job), false)
  {
    var w, d := Whole(job.payload), job.code;
    var before, tried := ThreeFiles(a, b, c, w), ThreeTried(pkg, a, b, c);
    es := ThreeOrphans(pkg, a, b, c, job.payload);
    es := MakeArtifact(es, map[], map[], tried, job, before, false);
    es := PublishArtifact(es, map[], map[], tried[pkg := d], job, before[job.Art() := w], false);
    var dir := before[job.Art() := w][Sidecar(job.Art()) := Digest(w)][Latest := job.Doc()];
    FourFiles(dir, a, b, c, d);
    var order := [Artifact(a, Apk), Artifact(b, Apk), Artifact(c, Apk), Artifact(d, Apk)];
    es := PruneFourth(es, tried[pkg := d], job.(sum := Digest(w)), dir, order);
  }

  /** This leaves latest.json naming a deleted file. */
  lemma DanglingLatest(pkg: string, a: int, b: int, c: int, d: int, payload: Payload) returns (es: seq<Event>)
    requires InInt64(a) && InInt64(d) && a > b > c > d
    ensures CanRun(INIT, es)
    ensures var dir := DirOf(Final(INIT, es).dirs, pkg);
      Latest in dir && dir[Latest].LatestDoc? && dir[Latest].file !in dir
  {
    es := GoingBack(pkg, a, b, c, JobFor(pkg, d, payload));
  }

  /** And the sink is then called with the path of the deleted file. */
  lemma SinkToldOfDeleted(pkg: string, a: int, b: int, c: int, d: int, payload: Payload) returns (es: seq<Event>)
    requires InInt64(a) && InInt64(d) && a > b > c > d
    ensures CanRun(INIT, es) && Final(INIT, es).log != []
    ensures var s := Final(INIT, es); var told := s.log[|s.log| - 1];
      told.pkg == pkg && told.code == d && told.file !in DirOf(s.dirs, pkg)
  {
    var job := JobFor(pkg, d, payload);
    var done, tried := job.(sum := Digest(Whole(payload))), ThreeTried(pkg, a, b, c)[pkg := d];
    var dir := NewestGone(a, b, c, job);
    es := GoingBack(pkg, a, b, c, job);
    es := OneEffect(es, map[], map[], tried, done, RemovingSidecar([job.Art()]), dir, false);
    var left := dir - {Sidecar(job.Art())};
    assert Effect(dir, done, RemovingSidecar([job.Art()])) == left && [job.Art()][1..] == [];
    es := OneEffect(es, map[], map[], tried, done, Removing([]), left, false);
    es := OneEffect(es, map[], map[], tried, done, Delivering, left, false);
    DeliveredSum(es, done);
  }

  lemma FourFiles(dir: Dir, a: int, b: int, c: int, d: int)
    requires a > b > c > d
    requires dir.Keys == {Artifact(a, Apk), Artifact(b, Apk), Artifact(c, Apk), Artifact(d, Apk)}
                         + {Sidecar(Artifact(d, Apk)), Latest}
    requires forall n :: n in dir ==> !dir[n].SubDir?
    ensures IsOrder([Artifact(a, Apk), Artifact(b, Apk), Artifact(c, Apk), Artifact(d, Apk)], VersionFiles(dir))
  {
  }

  /** An artifact and its checksum are not replaced together: a second attempt at a code that was
      published but never recorded can die between the two writes, and latest.json then names an
      artifact whose checksum file describes other content. Codes never decrease in this run. */
  lemma StaleChecksum(pkg: string, code: int, first: Payload, second: Payload) returns (es: seq<Event>)
    requires InInt64(code) && first != second
    ensures CanRun(INIT, es) && MonotoneRun(INIT, es) && Final(INIT, es).pc.Idle?
    ensures var dir, art := DirOf(Final(INIT, es).dirs, pkg), Artifact(code, Apk);
      && ContentOf(dir, Latest) == LatestDoc(code, "", art) && ContentOf(dir, art) == Whole(second)
      && ContentOf(dir, Sidecar(art)) == Digest(Whole(first)) != Digest(ContentOf(dir, art))
  {
    var one, two, art := JobFor(pkg, code, first), JobFor(pkg, code, second), Artifact(code, Apk);
    es := MakeArtifact([], map[], map[], map[], one, map[], true);
    es := PublishArtifact(es, map[], map[], map[][pkg := code], one, map[][art := Whole(first)], true);
    var dir := map[][art := Whole(first)][Sidecar(art) := Digest(Whole(first))][Latest := one.Doc()];
    var done := one.(sum := Digest(Whole(first)));
    es := Die(es, pkg, map[], map[], map[][pkg := code], Busy(done, ListingDir), dir, true);
    es := MakeArtifact(es, map[], map[], map[][pkg := code], two, dir, true);
    es := Die(es, pkg, map[], map[], map[][pkg := code][pkg := code], Busy(two, WritingSidecar),
              dir[art := Whole(second)], true);
  }
}
