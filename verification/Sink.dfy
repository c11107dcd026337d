/** What the sink is handed (extractor/extractor.go:94-116). */
module Sink {
  import opened Names
  import opened Files
  import opened Protocol
  import opened Published

  predicate Summed(phase: Phase) {
    phase.WritingLatest? || phase.RenamingLatest? || AfterLatest(phase)
  }

  ghost predicate SumSound(s: State) {
    s.pc.Busy? ==>
      && (Summed(s.pc.phase) ==> s.pc.job.sum == Digest(Whole(s.pc.job.payload)))
      && (s.pc.phase.Recording? ==> s.log != [] && s.log[|s.log| - 1] == DeliveryOf(s.run, s.pc.job))
  }

  /** As long as pruning has not begun, the checksum file is that of the new artifact. */
  ghost predicate SidecarMade(s: State) {
    s.pc.Busy? && Summed(s.pc.phase) && BeforePruning(s.pc.phase) ==>
      ContentOf(DirOf(s.dirs, s.pc.job.pkg), Sidecar(s.pc.job.Art())) == Digest(Whole(s.pc.job.payload))
  }

  lemma StepSumSound(s: State, e: Event)
    requires Sound(s) && SumSound(s) && Enabled(s, e)
    ensures SumSound(Step(s, e))
  {
  }

  lemma StepSidecarMade(s: State, e: Event)
    requires Sound(s) && SidecarMade(s) && Enabled(s, e)
    ensures SidecarMade(Step(s, e))
  {
  }

  lemma {:induction false} RunSumSound(s: State, es: seq<Event>)
    requires Sound(s) && SumSound(s) && SidecarMade(s) && CanRun(s, es)
    ensures SumSound(Final(s, es)) && SidecarMade(Final(s, es))
    decreases |es|
  {
    if es == [] {
    } else {
      StepSound(s, es[0]);
      StepSumSound(s, es[0]);
      StepSidecarMade(s, es[0]);
      RunSumSound(Step(s, es[0]), es[1..]);
    }
  }

  /** In every run, whatever the codes: the sink is told of the attempt that is being made, with the checksum
      of its complete payload. */
  lemma DeliveredSum(es: seq<Event>, job: Job)
    requires CanRun(INIT, es) && Final(INIT, es).pc == Busy(job, Recording)
    ensures var s := Final(INIT, es);
      s.log != [] && s.log[|s.log| - 1] == DeliveryOf(s.run, job) && job.sum == Digest(Whole(job.payload))
  {
    RunSumSound(INIT, es);
  }

  /** ... and latest.json then says the same: version, name and file are those of the attempt, and the sink is
      told exactly these. */
  lemma LatestTold(es: seq<Event>, job: Job)
    requires CanRun(INIT, es) && Final(INIT, es).pc == Busy(job, Recording)
    ensures Final(INIT, es).log != []
    ensures var s := Final(INIT, es); var told, dir := s.log[|s.log| - 1], DirOf(s.dirs, job.pkg);
      && told.run == s.run && told.pkg == job.pkg && told.code == job.code && told.name == job.name
      && told.file == Artifact(job.code, job.ext) && (told.isXapk <==> job.ext == Xapk)
      && told.checksum == Digest(Whole(job.payload))
      && Latest in dir && dir[Latest] == LatestDoc(told.code, told.name, told.file)
  {
    DeliveredSum(es, job);
    RunSound(INIT, es);
  }

  // Whether the path it is given still leads to the artifact.

  predicate Present(dir: Dir, job: Job) {
    ContentOf(dir, job.Art()) == Whole(job.payload)
  }

  /** The artifact and its checksum file are there. */
  predicate OnDisk(dir: Dir, job: Job) {
    Present(dir, job) && ContentOf(dir, Sidecar(job.Art())) == Digest(Whole(job.payload))
  }

  ghost predicate ToldPresent(s: State) {
    s.pc.Busy? && s.pc.phase.Recording? ==> Present(DirOf(s.dirs, s.pc.job.pkg), s.pc.job)
  }

  ghost predicate ToldTruth(s: State) {
    s.pc.Busy? && s.pc.phase.Recording? ==> OnDisk(DirOf(s.dirs, s.pc.job.pkg), s.pc.job)
  }

  ghost predicate Safe(s: State, job: Job) {
    && Spared(s, job) && (s.pc.Busy? ==> OnDisk(DirOf(s.dirs, job.pkg), job))
    && (s.pc.Busy? && (s.pc.phase.Removing? || s.pc.phase.RemovingSidecar?) ==> AllVersioned(s.pc.phase.rest))
  }

  lemma SafeStep(s: State, e: Event, job: Job)
    requires Safe(s, job) && Enabled(s, e) && !e.Attempt?
    ensures Safe(Step(s, e), job)
  {
    SparedStep(s, e, job);
    if s.pc.Busy? && (s.pc.phase.Removing? || s.pc.phase.RemovingSidecar?) && s.pc.phase.rest != [] {
      assert s.pc.phase.rest[0] in s.pc.phase.rest;
    }
  }

  lemma {:induction false} SafeRun(s: State, es: seq<Event>, job: Job)
    requires Safe(s, job) && CanRun(s, es) && NoAttempt(es)
    ensures Safe(Final(s, es), job)
    decreases |es|
  {
    if es == [] {
    } else {
      assert es[0] in es && forall e :: e in es[1..] ==> e in es;
      SafeStep(s, es[0], job);
      SafeRun(Step(s, es[0]), es[1..], job);
    }
  }

  lemma SafeToTell(s: State, more: seq<Event>)
    requires Made(s) && SidecarMade(s) && s.pc.Busy? && s.pc.phase.ListingDir? && Rivals(s) <= KEEP
    requires CanRun(s, more) && NoAttempt(more)
    ensures ToldTruth(Final(s, more))
  {
    SafeOrders(s);
    if more == [] {
    } else {
      assert more[0] in more && forall e :: e in more[1..] ==> e in more;
      if more[0].Listed? { assert forall n :: n in Excess(more[0].order) ==> n in more[0].order; }
      assert Safe(Step(s, more[0]), s.pc.job);
      SafeRun(Step(s, more[0]), more[1..], s.pc.job);
    }
  }

  lemma AdvanceTwice(s: State, rest: seq<Event>) returns (es: seq<Event>)
    requires Enabled(s, Advance) && Enabled(Step(s, Advance), Advance)
    requires CanRun(Step(Step(s, Advance), Advance), rest) && NoAttempt(rest)
    ensures CanRun(s, es) && NoAttempt(es) && Final(s, es) == Final(Step(Step(s, Advance), Advance), rest)
  {
    es := [Advance] + ([Advance] + rest);
    assert es[1..] == [Advance] + rest && es[1..][1..] == rest;
  }

  /** Removing the next file and its checksum. */
  lemma RemoveNext(s: State, n: FileName)
    requires s.pc.Busy? && s.pc.phase.Removing? && s.pc.phase.rest != []
    requires n in s.pc.phase.rest || n !in DirOf(s.dirs, s.pc.job.pkg)
    ensures var t := Step(Step(s, Advance), Advance);
      && t.pc == Busy(s.pc.job, Removing(s.pc.phase.rest[1..]))
      && (n in s.pc.phase.rest[1..] || n !in DirOf(t.dirs, s.pc.job.pkg))
  {
    var names := s.pc.phase.rest;
    assert names == [names[0]] + names[1..];
  }

  /** The rest of the removals, and the sink call: what is to be removed is then gone. */
  lemma {:induction false} FinishRemoval(s: State, n: FileName) returns (es: seq<Event>)
    requires s.pc.Busy? && s.pc.phase.Removing?
    requires n in s.pc.phase.rest || n !in DirOf(s.dirs, s.pc.job.pkg)
    ensures CanRun(s, es) && NoAttempt(es) && Final(s, es).pc == Busy(s.pc.job, Recording)
    ensures n !in DirOf(Final(s, es).dirs, s.pc.job.pkg)
    decreases |s.pc.phase.rest|
  {
    var t := Step(Step(s, Advance), Advance);
    if s.pc.phase.rest == [] {
      assert t.pc == Busy(s.pc.job, Recording) && t.dirs == s.dirs;
      es := AdvanceTwice(s, []);
    } else {
      RemoveNext(s, n);
      var rest := FinishRemoval(t, n);
      es := AdvanceTwice(s, rest);
    }
  }

  lemma DoomedToTell(s: State) returns (more: seq<Event>)
    requires Made(s) && s.pc.Busy? && s.pc.phase.ListingDir? && Rivals(s) > KEEP
    ensures CanRun(s, more) && NoAttempt(more) && !ToldPresent(Final(s, more))
  {
    ArtListed(s);
    var order := UnluckyOrder(VersionFiles(DirOf(s.dirs, s.pc.job.pkg)), s.pc.job.Art());
    var rest := FinishRemoval(Step(s, Listed(order)), s.pc.job.Art());
    more := [Listed(order)] + rest;
    assert more[1..] == rest;
  }

  /** When a sink call is right about the disk: after any run, at the listing, every continuation that gets
      to the sink call finds the new artifact under the path that is told, or finds both the artifact and the
      told checksum next to it, if and only if at most three version files carry its code or a greater one. */
  lemma SinkTruthIff(es: seq<Event>)
    requires CanRun(INIT, es) && Final(INIT, es).pc.Busy? && Final(INIT, es).pc.phase.ListingDir?
    ensures var s := Final(INIT, es);
      (forall more :: CanRun(s, more) && NoAttempt(more) ==> ToldPresent(Final(s, more))) <==> Rivals(s) <= KEEP
    ensures var s := Final(INIT, es);
      (forall more :: CanRun(s, more) && NoAttempt(more) ==> ToldTruth(Final(s, more))) <==> Rivals(s) <= KEEP
  {
    var s := Final(INIT, es);
    RunMade(INIT, es);
    RunSumSound(INIT, es);
    if Rivals(s) <= KEEP {
      forall more | CanRun(s, more) && NoAttempt(more)
        ensures ToldPresent(Final(s, more)) && ToldTruth(Final(s, more))
      {
        SafeToTell(s, more);
      }
    } else {
      var more := DoomedToTell(s);
    }
  }

  // With codes that never decrease.

  ghost predicate SidecarKept(s: State) {
    s.pc.Busy? && Summed(s.pc.phase) ==>
      ContentOf(DirOf(s.dirs, s.pc.job.pkg), Sidecar(s.pc.job.Art())) == Digest(Whole(s.pc.job.payload))
  }

  lemma RemovalKeepsSidecar(s: State)
    requires AllFiled(s) && SidecarKept(s)
    requires s.pc.Busy? && (s.pc.phase.Removing? || s.pc.phase.RemovingSidecar?) && AllVersioned(s.pc.phase.rest)
    ensures SidecarKept(Step(s, Advance))
  {
    if s.pc.phase.rest != [] { assert s.pc.phase.rest[0] in s.pc.phase.rest; }
  }

  lemma StepSidecarKept(s: State, e: Event)
    requires Sound(s) && AllFiled(s) && SidecarKept(s) && Enabled(s, e)
    ensures SidecarKept(Step(s, e))
  {
    if e.Advance? && s.pc.Busy? && (s.pc.phase.Removing? || s.pc.phase.RemovingSidecar?) {
      RemovalKeepsSidecar(s);
    }
  }

  lemma {:induction false} RunSidecarKept(s: State, es: seq<Event>)
    requires Sound(s) && AllFiled(s) && SidecarKept(s) && CanRun(s, es) && MonotoneRun(s, es)
    ensures SidecarKept(Final(s, es))
    decreases |es|
  {
    if es == [] {
    } else {
      StepSound(s, es[0]);
      StepFiled(s, es[0]);
      StepSidecarKept(s, es[0]);
      RunSidecarKept(Step(s, es[0]), es[1..]);
    }
  }

  /** When the sink is called, with codes that never decrease, the path it is given names the complete
      new artifact, and the checksum it is given is that artifact's and the one in the checksum file:
      even if earlier attempts failed or died anywhere. */
  lemma SinkSeesArtifact(es: seq<Event>, job: Job)
    requires CanRun(INIT, es) && MonotoneRun(INIT, es) && Final(INIT, es).pc == Busy(job, Recording)
    ensures Final(INIT, es).log != []
    ensures var s := Final(INIT, es); var dir := DirOf(s.dirs, job.pkg); var told := s.log[|s.log| - 1];
      && told == DeliveryOf(s.run, job) && told.file in dir && dir[told.file] == Whole(job.payload)
      && told.checksum == Digest(dir[told.file]) == ContentOf(dir, Sidecar(told.file))
  {
    DeliveredSum(es, job);
    RunFiled(INIT, es);
    RunSidecarKept(INIT, es);
  }
}
