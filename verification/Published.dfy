/** When latest.json names a file that is there (extractor/extractor.go:94-103, 392-438). */
module Published {
  import opened Text
  import opened Names
  import opened Files
  import opened Protocol

  /** The attempted codes of a package never go down. */
  predicate Monotone(s: State, e: Event) {
    e.Attempt? && e.job.pkg in s.attempted ==> s.attempted[e.job.pkg] <= e.job.code
  }

  ghost predicate MonotoneRun(s: State, es: seq<Event>)
    decreases |es|
  {
    es == [] || (Monotone(s, es[0]) && MonotoneRun(Step(s, es[0]), es[1..]))
  }

  /** The version files are the service's own and no newer than the last attempt; latest.json names
      one of them, with its code. */
  ghost predicate Filed(dir: Dir, attempted: Option<int>) {
    && (forall n :: n in dir && n.Version().Some? ==>
          n.Artifact? && dir[n].Whole? && attempted.Some? && n.code <= attempted.value)
    && (Latest in dir && dir[Latest].LatestDoc? ==>
          dir[Latest].file.Artifact? && dir[Latest].file in dir && dir[Latest].file.code == dir[Latest].code)
  }

  predicate ArtifactMade(phase: Phase) {
    phase.WritingSidecar? || phase.WritingLatest? || phase.RenamingLatest? || AfterLatest(phase)
  }

  predicate FiledPhase(dir: Dir, job: Job, phase: Phase) {
    && (ArtifactMade(phase) ==> ContentOf(dir, job.Art()) == Whole(job.payload))
    && (phase.Removing? || phase.RemovingSidecar? ==> job.Art() !in phase.rest)
  }

  function AttemptedOf(s: State, pkg: string): Option<int> {
    if pkg in s.attempted then Some(s.attempted[pkg]) else None
  }

  ghost predicate AllFiled(s: State) {
    && (forall p :: Filed(DirOf(s.dirs, p), AttemptedOf(s, p)))
    && (s.pc.Busy? ==> AttemptedOf(s, s.pc.job.pkg) == Some(s.pc.job.code))
    && (s.pc.Busy? ==> FiledPhase(DirOf(s.dirs, s.pc.job.pkg), s.pc.job, s.pc.phase))
  }

  lemma EffectFiled(dir: Dir, mem: Registry, job: Job, phase: Phase)
    requires AtPhase(dir, mem, job, phase) && CanAdvance(dir, job, phase) && !phase.Recording?
    requires Filed(dir, Some(job.code)) && FiledPhase(dir, job, phase)
    ensures var after := Effect(dir, job, phase);
      Filed(after, Some(job.code)) && FiledPhase(after, AdvanceJob(dir, job, phase), Next(phase))
  {
    if (phase.Removing? || phase.RemovingSidecar?) && phase.rest != [] {
      assert phase.rest[0] in phase.rest;
    }
  }

  /** Two names at most carry the top code, and three files are kept: the new artifact stays. */
  lemma NewestKept(dir: Dir, job: Job, order: seq<FileName>)
    requires Filed(dir, Some(job.code)) && ContentOf(dir, job.Art()) == Whole(job.payload)
    requires IsOrder(order, VersionFiles(dir))
    ensures job.Art() !in Excess(order)
  {
    var files := VersionFiles(dir);
    var top := {Artifact(job.code, Apk), Artifact(job.code, Xapk)};
    forall n | n in AtLeast(files, job.code) ensures n in top {
      assert n.Artifact? && n.code == job.code;
      assert n.ext == Apk || n.ext == Xapk;
    }
    SubsetSize(AtLeast(files, job.code), top);
    if |order| > KEEP {
      SurvivesOrder(order, files, KEEP, job.Art());
    }
  }

  lemma ReplaceFiled(s: State, t: State, pkg: string, dir: Dir)
    requires forall p :: Filed(DirOf(s.dirs, p), AttemptedOf(s, p))
    requires t.dirs == s.dirs[pkg := dir] && t.attempted == s.attempted && Filed(dir, AttemptedOf(s, pkg))
    ensures forall p :: Filed(DirOf(t.dirs, p), AttemptedOf(t, p))
  {
    forall p ensures Filed(DirOf(t.dirs, p), AttemptedOf(t, p)) {
      assert Filed(DirOf(s.dirs, p), AttemptedOf(s, p));
      assert DirOf(t.dirs, p) == if p == pkg then dir else DirOf(s.dirs, p);
    }
  }

  lemma AttemptFiled(s: State, e: Event)
    requires AllFiled(s) && Enabled(s, e) && e.Attempt? && Monotone(s, e)
    ensures AllFiled(Step(s, e))
  {
    var t := Step(s, e);
    forall p ensures Filed(DirOf(t.dirs, p), AttemptedOf(t, p)) {
      assert Filed(DirOf(s.dirs, p), AttemptedOf(s, p));
    }
  }

  lemma AdvanceFiled(s: State)
    requires Sound(s) && AllFiled(s) && s.pc.Busy? && Enabled(s, Advance) && !s.pc.phase.Recording?
    ensures AllFiled(Step(s, Advance))
  {
    var t, job, phase := Step(s, Advance), s.pc.job, s.pc.phase;
    var dir := DirOf(s.dirs, job.pkg);
    assert Filed(dir, AttemptedOf(s, job.pkg));
    EffectFiled(dir, s.mem, job, phase);
    if Touches(phase) { ReplaceFiled(s, t, job.pkg, Effect(dir, job, phase)); }
  }

  lemma BusyFiled(s: State, e: Event)
    requires Sound(s) && AllFiled(s) && Enabled(s, e) && s.pc.Busy? && !e.Crash?
    ensures AllFiled(Step(s, e))
  {
    var t, job, phase := Step(s, e), s.pc.job, s.pc.phase;
    var dir := DirOf(s.dirs, job.pkg);
    assert Filed(dir, AttemptedOf(s, job.pkg));
    match e
    case Advance => if !phase.Recording? { AdvanceFiled(s); }
    case Tear => ReplaceFiled(s, t, job.pkg, TearFile(dir, job, phase));
    case Fail(cleaned) => if cleaned { ReplaceFiled(s, t, job.pkg, dir - {TmpOf(job, phase)}); }
    case Listed(order) => NewestKept(dir, job, order);
    case Skip =>
  }

  lemma StepFiled(s: State, e: Event)
    requires Sound(s) && AllFiled(s) && Enabled(s, e) && Monotone(s, e)
    ensures AllFiled(Step(s, e))
  {
    if e.Attempt? {
      AttemptFiled(s, e);
    } else if s.pc.Busy? && !e.Crash? {
      BusyFiled(s, e);
    } else {
      assert Step(s, e).dirs == s.dirs && Step(s, e).attempted == s.attempted;
      assert forall p :: AttemptedOf(Step(s, e), p) == AttemptedOf(s, p);
    }
  }

  lemma {:induction false} RunFiled(s: State, es: seq<Event>)
    requires Sound(s) && AllFiled(s) && CanRun(s, es) && MonotoneRun(s, es)
    ensures AllFiled(Final(s, es))
    decreases |es|
  {
    if es == [] {
    } else {
      StepSound(s, es[0]);
      StepFiled(s, es[0]);
      RunFiled(Step(s, es[0]), es[1..]);
    }
  }

  /** As long as attempted codes never decrease, latest.json names a complete artifact of its own code
      in every reachable state: between any two removals, after any failure, after any crash. */
  lemma LatestNeverDangles(es: seq<Event>, pkg: string)
    requires CanRun(INIT, es) && MonotoneRun(INIT, es)
    requires Latest in DirOf(Final(INIT, es).dirs, pkg)
    ensures var dir := DirOf(Final(INIT, es).dirs, pkg);
      && dir[Latest].LatestDoc?
      && dir[Latest].file in dir && dir[dir[Latest].file].Whole?
      && dir[Latest].file.Version() == Some(dir[Latest].code)
  {
    RunSound(INIT, es);
    RunFiled(INIT, es);
    assert Filed(DirOf(Final(INIT, es).dirs, pkg), AttemptedOf(Final(INIT, es), pkg));
  }

  lemma StepLatestRises(s: State, e: Event, pkg: string)
    requires Sound(s) && AllFiled(s) && Enabled(s, e) && Latest in DirOf(s.dirs, pkg)
    ensures var dir, after := DirOf(s.dirs, pkg), DirOf(Step(s, e).dirs, pkg);
      Latest in after && dir[Latest].LatestDoc? && after[Latest].LatestDoc? && dir[Latest].code <= after[Latest].code
  {
    assert Filed(DirOf(s.dirs, pkg), AttemptedOf(s, pkg));
    if !Concerns(s.pc, pkg) || e.Crash? || e.Listed? || e.Skip? {
      DirFrame(s, e, pkg);
    } else if e.Advance? {
      EffectOnLatest(DirOf(s.dirs, pkg), s.mem, s.pc.job, s.pc.phase);
    }
  }

  lemma {:induction false} RunLatestRises(s: State, es: seq<Event>, pkg: string)
    requires Sound(s) && AllFiled(s) && CanRun(s, es) && MonotoneRun(s, es) && Latest in DirOf(s.dirs, pkg)
    ensures var dir, after := DirOf(s.dirs, pkg), DirOf(Final(s, es).dirs, pkg);
      Latest in after && dir[Latest].LatestDoc? && after[Latest].LatestDoc? && dir[Latest].code <= after[Latest].code
    decreases |es|
  {
    if es == [] {
    } else {
      StepSound(s, es[0]);
      StepFiled(s, es[0]);
      StepLatestRises(s, es[0], pkg);
      RunLatestRises(Step(s, es[0]), es[1..], pkg);
    }
  }

  /** Under the same assumption latest.json never goes away again and its code never goes down. */
  lemma LatestNeverFalls(es: seq<Event>, more: seq<Event>, pkg: string)
    requires CanRun(INIT, es) && MonotoneRun(INIT, es)
    requires CanRun(Final(INIT, es), more) && MonotoneRun(Final(INIT, es), more)
    requires Latest in DirOf(Final(INIT, es).dirs, pkg)
    ensures var s := Final(INIT, es); var dir, after := DirOf(s.dirs, pkg), DirOf(Final(s, more).dirs, pkg);
      Latest in after && dir[Latest].LatestDoc? && after[Latest].LatestDoc? && dir[Latest].code <= after[Latest].code
  {
    RunSound(INIT, es);
    RunFiled(INIT, es);
    RunLatestRises(Final(INIT, es), more, pkg);
  }

  // Without that assumption.

  ghost predicate Named(dir: Dir) {
    Latest in dir && dir[Latest].LatestDoc? ==>
      && dir[Latest].file.Artifact? && dir[Latest].file.code == dir[Latest].code
      && dir[Latest].file in dir && dir[dir[Latest].file].Whole?
  }

  predicate BeforePruning(phase: Phase) {
    phase.WritingSidecar? || phase.WritingLatest? || phase.RenamingLatest? || phase.ListingDir?
  }

  ghost predicate Made(s: State) {
    s.pc.Busy? && BeforePruning(s.pc.phase) ==>
      ContentOf(DirOf(s.dirs, s.pc.job.pkg), s.pc.job.Art()) == Whole(s.pc.job.payload)
  }

  lemma StepMade(s: State, e: Event)
    requires Sound(s) && Made(s) && Enabled(s, e)
    ensures Made(Step(s, e))
  {
  }

  lemma {:induction false} RunMade(s: State, es: seq<Event>)
    requires Sound(s) && Made(s) && CanRun(s, es)
    ensures Made(Final(s, es)) && Sound(Final(s, es))
    decreases |es|
  {
    if es == [] {
    } else {
      StepSound(s, es[0]);
      StepMade(s, es[0]);
      RunMade(Step(s, es[0]), es[1..]);
    }
  }

  /** Pruning is about to remove the artifact just published. */
  predicate RemovesNew(s: State, e: Event, pkg: string) {
    && e.Advance? && Concerns(s.pc, pkg) && s.pc.phase.Removing?
    && s.pc.phase.rest != [] && s.pc.phase.rest[0] == s.pc.job.Art()
  }

  /** One step makes latest.json dangle if and only if it removes the artifact just published. */
  lemma StepNamedIff(s: State, e: Event, pkg: string)
    requires Sound(s) && Made(s) && Named(DirOf(s.dirs, pkg)) && Enabled(s, e)
    ensures Named(DirOf(Step(s, e).dirs, pkg)) <==> !RemovesNew(s, e, pkg)
  {
    if !Concerns(s.pc, pkg) || e.Crash? || e.Listed? || e.Skip? {
      DirFrame(s, e, pkg);
    } else if e.Advance? && s.pc.phase.Removing? && s.pc.phase.rest != [] {
      assert s.pc.phase.rest[0] in s.pc.phase.rest;
    }
  }

  ghost predicate AlwaysNamed(s: State, es: seq<Event>, pkg: string)
    decreases |es|
  {
    Named(DirOf(s.dirs, pkg)) && (es == [] || AlwaysNamed(Step(s, es[0]), es[1..], pkg))
  }

  ghost predicate NeverRemovesNew(s: State, es: seq<Event>, pkg: string)
    decreases |es|
  {
    es == [] || (!RemovesNew(s, es[0], pkg) && NeverRemovesNew(Step(s, es[0]), es[1..], pkg))
  }

  lemma {:induction false} RunNamed(s: State, es: seq<Event>, pkg: string)
    requires Sound(s) && Made(s) && Named(DirOf(s.dirs, pkg)) && CanRun(s, es)
    ensures AlwaysNamed(s, es, pkg) <==> NeverRemovesNew(s, es, pkg)
    decreases |es|
  {
    if es == [] {
    } else {
      StepSound(s, es[0]);
      StepMade(s, es[0]);
      StepNamedIff(s, es[0], pkg);
      if !RemovesNew(s, es[0], pkg) { RunNamed(Step(s, es[0]), es[1..], pkg); }
    }
  }

  /** Over any run, latest.json names a complete artifact of its own code in every state if and only if
      pruning never removes an artifact it has just published. */
  lemma LatestNamedIff(es: seq<Event>, pkg: string)
    requires CanRun(INIT, es)
    ensures AlwaysNamed(INIT, es, pkg) <==> NeverRemovesNew(INIT, es, pkg)
  {
    RunNamed(INIT, es, pkg);
  }

  ghost function Rivals(s: State): nat
    requires s.pc.Busy?
  {
    |AtLeast(VersionFiles(DirOf(s.dirs, s.pc.job.pkg)), s.pc.job.code)|
  }

  /** A version file with at most three as new, itself included, is still there after pruning. */
  lemma NewestThreeStay(dir: Dir, after: Dir, f: FileName)
    requires Pruned(dir, KEEP, after) && f in VersionFiles(dir) && |AtLeast(VersionFiles(dir), CodeOf(f))| <= 3
    ensures f in after
  {
    SurvivesIff(dir, KEEP, f);
  }

  /** Pruning leaves three version files, or all if there are fewer. */
  lemma ThreeStay(dir: Dir, after: Dir)
    requires Pruned(dir, KEEP, after)
    ensures |VersionFiles(after)| == if |VersionFiles(dir)| <= 3 then |VersionFiles(dir)| else 3
  {
    PruneMeaning(dir, KEEP, after);
  }

  lemma UnluckyOrder(files: set<FileName>, art: FileName) returns (order: seq<FileName>)
    requires art in files && |AtLeast(files, CodeOf(art))| > KEEP
    ensures IsOrder(order, files) && art in Excess(order)
  {
    order := LateOrder(files, art);
    OrderSize(order, files);
    SubsetSize(AtLeast(files, CodeOf(art)), files);
    var i :| 0 <= i < |order| && order[i] == art;
    LateRank(order, files, i);
    assert KEEP <= i < |order|;
    assert order[KEEP..][i - KEEP] == art;
  }

  lemma ArtListed(s: State)
    requires Made(s) && s.pc.Busy? && s.pc.phase.ListingDir?
    ensures s.pc.job.Art() in VersionFiles(DirOf(s.dirs, s.pc.job.pkg))
  {
  }

  /** Before any pruning, after any run: the new artifact is safe, however ties are sorted, exactly when no
      more than three version files (itself included) carry its code or a greater one. */
  lemma NewArtifactSafeIff(es: seq<Event>)
    requires CanRun(INIT, es) && Final(INIT, es).pc.Busy? && Final(INIT, es).pc.phase.ListingDir?
    ensures var s := Final(INIT, es);
      (forall order :: Enabled(s, Listed(order)) ==> s.pc.job.Art() !in Step(s, Listed(order)).pc.phase.rest)
      <==> Rivals(s) <= KEEP
  {
    RunMade(INIT, es);
    SafeOrders(Final(INIT, es));
  }

  lemma SafeOrders(s: State)
    requires Made(s) && s.pc.Busy? && s.pc.phase.ListingDir?
    ensures (forall order :: Enabled(s, Listed(order)) ==> s.pc.job.Art() !in Step(s, Listed(order)).pc.phase.rest)
       <==> Rivals(s) <= KEEP
  {
    var files, art := VersionFiles(DirOf(s.dirs, s.pc.job.pkg)), s.pc.job.Art();
    ArtListed(s);
    if Rivals(s) <= KEEP {
      forall order | Enabled(s, Listed(order)) ensures art !in Excess(order) {
        if |order| > KEEP { SurvivesOrder(order, files, KEEP, art); }
      }
    } else {
      var order := UnluckyOrder(files, art);
      assert Enabled(s, Listed(order));
    }
  }

  predicate NoAttempt(es: seq<Event>) {
    forall e :: e in es ==> !e.Attempt?
  }

  /** Where this publication can no longer lose its artifact. */
  predicate Spared(s: State, job: Job) {
    s.pc.Busy? ==>
      && s.pc.job == job && AfterLatest(s.pc.phase) && !s.pc.phase.ListingDir?
      && (s.pc.phase.Removing? || s.pc.phase.RemovingSidecar? ==> job.Art() !in s.pc.phase.rest)
  }

  lemma {:induction false} SparedRun(s: State, es: seq<Event>, job: Job)
    requires Spared(s, job) && CanRun(s, es) && NoAttempt(es)
    ensures NeverRemovesNew(s, es, job.pkg)
    decreases |es|
  {
    if es == [] {
    } else {
      assert es[0] in es && forall e :: e in es[1..] ==> e in es;
      SparedStep(s, es[0], job);
      SparedRun(Step(s, es[0]), es[1..], job);
    }
  }

  lemma SparedStep(s: State, e: Event, job: Job)
    requires Spared(s, job) && Enabled(s, e) && !e.Attempt?
    ensures Spared(Step(s, e), job) && !RemovesNew(s, e, job.pkg)
  {
    if s.pc.Busy? && (s.pc.phase.Removing? || s.pc.phase.RemovingSidecar?) && s.pc.phase.rest != [] {
      assert s.pc.phase.rest[0] in s.pc.phase.rest;
    }
  }

  /** The removals up to the new artifact. */
  lemma {:induction false} Doom(s: State, i: nat) returns (es: seq<Event>)
    requires s.pc.Busy? && s.pc.phase.Removing? && i < |s.pc.phase.rest| && s.pc.phase.rest[i] == s.pc.job.Art()
    ensures CanRun(s, es) && NoAttempt(es) && !NeverRemovesNew(s, es, s.pc.job.pkg)
    decreases i
  {
    if i == 0 {
      es := [Advance];
      assert es[1..] == [];
    } else {
      var t := Step(Step(s, Advance), Advance);
      assert t.pc.job == s.pc.job && t.pc.phase == Removing(s.pc.phase.rest[1..]);
      var rest := Doom(t, i - 1);
      es := [Advance] + ([Advance] + rest);
      assert es[1..] == [Advance] + rest && es[1..][1..] == rest;
    }
  }

  /** And so for the whole publication, whatever fails and wherever the process dies: from the listing on,
      latest.json keeps naming a complete artifact on every continuation up to the next attempt if and only
      if no more than three version files carry the new code or a greater one. */
  lemma PublicationSafeIff(es: seq<Event>)
    requires CanRun(INIT, es) && Final(INIT, es).pc.Busy? && Final(INIT, es).pc.phase.ListingDir?
    ensures var s := Final(INIT, es);
      (forall more :: CanRun(s, more) && NoAttempt(more) ==> AlwaysNamed(s, more, s.pc.job.pkg)) <==> Rivals(s) <= KEEP
  {
    var s := Final(INIT, es);
    var pkg := s.pc.job.pkg;
    RunMade(INIT, es);
    assert Named(DirOf(s.dirs, pkg));
    if Rivals(s) <= KEEP {
      forall more | CanRun(s, more) && NoAttempt(more) ensures AlwaysNamed(s, more, pkg) {
        SafeContinuation(s, more);
        RunNamed(s, more, pkg);
      }
    } else {
      var more := DoomedContinuation(s);
      RunNamed(s, more, pkg);
    }
  }

  lemma SafeContinuation(s: State, more: seq<Event>)
    requires Made(s) && s.pc.Busy? && s.pc.phase.ListingDir? && Rivals(s) <= KEEP
    requires CanRun(s, more) && NoAttempt(more)
    ensures NeverRemovesNew(s, more, s.pc.job.pkg)
  {
    SafeOrders(s);
    if more == [] {
    } else {
      assert more[0] in more && forall e :: e in more[1..] ==> e in more;
      assert Spared(Step(s, more[0]), s.pc.job);
      SparedRun(Step(s, more[0]), more[1..], s.pc.job);
    }
  }

  lemma DoomedContinuation(s: State) returns (more: seq<Event>)
    requires Made(s) && s.pc.Busy? && s.pc.phase.ListingDir? && Rivals(s) > KEEP
    ensures CanRun(s, more) && NoAttempt(more) && !NeverRemovesNew(s, more, s.pc.job.pkg)
  {
    var files, art := VersionFiles(DirOf(s.dirs, s.pc.job.pkg)), s.pc.job.Art();
    ArtListed(s);
    var order := UnluckyOrder(files, art);
    var i :| 0 <= i < |Excess(order)| && Excess(order)[i] == art;
    var rest := Doom(Step(s, Listed(order)), i);
    more := [Listed(order)] + rest;
    assert more[1..] == rest;
  }
}
