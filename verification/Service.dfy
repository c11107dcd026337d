/** The poll thread as the code runs it (watcher/watcher.go:65-194, extractor/extractor.go:34-117 and
    its writers). Every file effect may fail. A ghost trace records the state after each effect, and
    every method keeps it a run of the machine in `Protocol`: so whatever holds in all reachable states
    of the machine holds between any two effects of this code. */
module Service {
  import opened Text
  import opened Names
  import opened Adb
  import opened Merge
  import opened Bundle
  import opened Files
  import opened Protocol
  import opened Published
  import opened Checksums
  import opened Sink
  import opened Witnesses
  import opened Agreement
  import opened Delivered
  import Collector
  import Store

  ghost predicate Stepped(s: State, t: State) {
    exists e :: Enabled(s, e) && t == Step(s, e)
  }

  ghost predicate IsTrace(trace: seq<State>) {
    && trace != [] && trace[0] == INIT
    && forall i :: 0 <= i < |trace| - 1 ==> Stepped(trace[i], trace[i + 1])
  }

  /** Every state of a trace is reachable. */
  lemma {:induction false} TraceReachable(trace: seq<State>, i: nat) returns (es: seq<Event>)
    requires IsTrace(trace) && i < |trace|
    ensures CanRun(INIT, es) && Final(INIT, es) == trace[i]
  {
    if i == 0 {
      es := [];
    } else {
      es := TraceReachable(trace, i - 1);
      assert Stepped(trace[i - 1], trace[i - 1 + 1]);
      var e :| Enabled(trace[i - 1], e) && trace[i] == Step(trace[i - 1], e);
      RunConcat(INIT, es, [e]);
      assert [e][1..] == [];
      es := es + [e];
    }
  }

  /** No package's attempted code goes down along the trace. */
  ghost predicate Rising(trace: seq<State>) {
    forall i :: 0 <= i < |trace| - 1 ==> RisingStep(trace[i].attempted, trace[i + 1].attempted)
  }

  ghost predicate RisingStep(before: map<string, int>, after: map<string, int>) {
    forall p :: p in before ==> p in after && before[p] <= after[p]
  }

  /** ... by a run with codes that never decrease, if the trace shows none that do. */
  lemma {:induction false} TraceMonotone(trace: seq<State>, i: nat) returns (es: seq<Event>)
    requires IsTrace(trace) && Rising(trace) && i < |trace|
    ensures CanRun(INIT, es) && MonotoneRun(INIT, es) && Final(INIT, es) == trace[i]
  {
    if i == 0 {
      es := [];
    } else {
      es := TraceMonotone(trace, i - 1);
      assert Stepped(trace[i - 1], trace[i - 1 + 1]) && RisingStep(trace[i - 1].attempted, trace[i - 1 + 1].attempted);
      var e :| Enabled(trace[i - 1], e) && trace[i] == Step(trace[i - 1], e);
      es := Then(INIT, es, e);
    }
  }

  ghost predicate CalmStep(s: State, t: State) {
    exists e :: Enabled(s, e) && t == Step(s, e) && Undisturbed(s, e)
  }

  ghost predicate CalmTrace(trace: seq<State>) {
    forall i :: 0 <= i < |trace| - 1 ==> CalmStep(trace[i], trace[i + 1])
  }

  /** ... and by an undisturbed run, if no step of the trace disturbs a pair. */
  lemma {:induction false} TraceUndisturbed(trace: seq<State>, i: nat) returns (es: seq<Event>)
    requires IsTrace(trace) && CalmTrace(trace) && i < |trace|
    ensures CanRun(INIT, es) && UndisturbedRun(INIT, es) && Final(INIT, es) == trace[i]
  {
    if i == 0 {
      es := [];
    } else {
      es := TraceUndisturbed(trace, i - 1);
      assert CalmStep(trace[i - 1], trace[i - 1 + 1]);
      var e :| Enabled(trace[i - 1], e) && trace[i] == Step(trace[i - 1], e) && Undisturbed(trace[i - 1], e);
      UndisturbedThen(INIT, es, e);
      es := Then(INIT, es, e);
    }
  }

  lemma {:induction false} UndisturbedThen(s: State, es: seq<Event>, e: Event)
    requires UndisturbedRun(s, es) && Undisturbed(Final(s, es), e)
    ensures UndisturbedRun(s, es + [e])
    decreases |es|
  {
    if es == [] {
      assert [e][1..] == [];
    } else {
      assert (es + [e])[1..] == es[1..] + [e];
      UndisturbedThen(Step(s, es[0]), es[1..], e);
    }
  }

  lemma TraceSound(trace: seq<State>, i: nat)
    requires IsTrace(trace) && i < |trace|
    ensures Sound(trace[i])
  {
    var es := TraceReachable(trace, i);
    RunSound(INIT, es);
  }

  lemma LatestWhenRecording(trace: seq<State>, job: Job)
    requires IsTrace(trace) && trace[|trace| - 1].pc == Busy(job, Recording)
    ensures ContentOf(DirOf(trace[|trace| - 1].dirs, job.pkg), Latest) == LatestDoc(job.code, job.name, job.Art())
  {
    TraceSound(trace, |trace| - 1);
  }

  lemma ExtendTrace(trace: seq<State>, s: State, e: Event)
    requires IsTrace(trace) && trace[|trace| - 1] == s && Enabled(s, e)
    ensures IsTrace(trace + [Step(s, e)])
  {
    assert Stepped(s, Step(s, e));
  }

  lemma ExtendCalm(trace: seq<State>, s: State, e: Event)
    requires CalmTrace(trace) && trace != [] && trace[|trace| - 1] == s && Enabled(s, e) && Undisturbed(s, e)
    ensures CalmTrace(trace + [Step(s, e)])
  {
    assert CalmStep(s, Step(s, e));
  }

  lemma ExtendRising(trace: seq<State>, s: State, e: Event)
    requires Rising(trace) && trace != [] && trace[|trace| - 1] == s && Monotone(s, e)
    ensures Rising(trace + [Step(s, e)])
  {
    assert RisingStep(s.attempted, Step(s, e).attempted);
  }

  lemma ExtendAll(trace: seq<State>, s: State, e: Event, calm: bool, rising: bool)
    requires IsTrace(trace) && (calm ==> CalmTrace(trace)) && (rising ==> Rising(trace))
    requires trace[|trace| - 1] == s && Enabled(s, e)
    ensures IsTrace(trace + [Step(s, e)])
    ensures calm && Undisturbed(s, e) ==> CalmTrace(trace + [Step(s, e)])
    ensures rising && Monotone(s, e) ==> Rising(trace + [Step(s, e)])
  {
    ExtendTrace(trace, s, e);
    if calm && Undisturbed(s, e) { ExtendCalm(trace, s, e); }
    if rising && Monotone(s, e) { ExtendRising(trace, s, e); }
  }

  lemma WithoutSnoc(dir: Dir, gone: seq<FileName>, n: FileName)
    ensures Without(dir, gone + [n]) == Without(dir, gone) - {n} - {Sidecar(n)}
  {
    var all := gone + [n];
    assert forall f :: f in all <==> f in gone || f == n;
    forall f ensures IsSidecarOf(f, all) <==> IsSidecarOf(f, gone) || f == Sidecar(n) {
      if f == Sidecar(n) { assert n in all; }
    }
  }

  predicate NotBack(attempted: map<string, int>, pkg: string, code: int) {
    pkg in attempted ==> attempted[pkg] <= code
  }

  class Poller {
    const store: Store.VersionStore
    var dirs: map<string, Dir>
    var log: seq<Delivery>
    var run: nat
    ghost var attempted: map<string, int>
    ghost var pc: Pc
    ghost var trace: seq<State>
    ghost var faults: nat   // effects and extractions that failed
    ghost var calm: bool    // whether no effect so far left a pair of files half changed
    ghost var rising: bool  // whether no package's attempted code has gone down so far

    ghost function Now(): State
      reads this, store
    {
      State(dirs, store.file, store.data, log, run, attempted, pc)
    }

    ghost predicate Valid()
      reads this, store
    {
      && IsTrace(trace) && trace[|trace| - 1] == Now()
      && (calm ==> CalmTrace(trace)) && (rising ==> Rising(trace))
    }

    /** What every method keeps: the trace only grows, and other packages are left alone. */
    twostate predicate Extends(pkg: string)
      reads this, store
    {
      && Valid() && old(trace) <= trace && faults >= old(faults) && (faults == old(faults) ==> calm == old(calm))
      && run == old(run)
      && dirs - {pkg} == old(dirs) - {pkg}
      && store.data - {pkg} == old(store.data) - {pkg}
    }

    /** ... and no new attempt is made. */
    twostate predicate Continues(pkg: string)
      reads this, store
    {
      Extends(pkg) && attempted == old(attempted) && rising == old(rising)
    }

    /** ... or at most one, which keeps codes rising unless it goes back. */
    twostate predicate Attempts(pkg: string, code: int)
      reads this, store
    {
      && (attempted == old(attempted) || attempted == old(attempted)[pkg := code])
      && (old(rising) && NotBack(old(attempted), pkg, code) ==> rising)
    }

    constructor ()
      ensures Valid() && fresh(store) && pc == Idle && trace == [INIT] && calm && rising
    {
      store := new Store.VersionStore(map[]);
      dirs, log, run := map[], [], 0;
      attempted, pc, trace, faults, calm, rising := map[], Idle, [INIT], 0, true, true;
    }

    /** Records one effect that the code has just had. */
    ghost method Observe(e: Event)
      requires IsTrace(trace) && (calm ==> CalmTrace(trace)) && (rising ==> Rising(trace))
      requires trace[|trace| - 1].attempted == attempted && Enabled(trace[|trace| - 1], e)
      requires var t := Step(trace[|trace| - 1], e);
        t.dirs == dirs && t.durable == store.file && t.mem == store.data && t.log == log && t.run == run
      modifies this`trace, this`attempted, this`pc, this`calm, this`rising
      ensures Valid() && trace == old(trace) + [Now()]
      ensures calm <==> old(calm) && Undisturbed(old(trace)[|old(trace)| - 1], e)
      ensures rising <==> old(rising) && Monotone(old(trace)[|old(trace)| - 1], e)
      ensures Now() == Step(old(trace)[|old(trace)| - 1], e)
    {
      var s := trace[|trace| - 1];
      var t := Step(s, e);
      ExtendAll(trace, s, e, calm, rising);
      calm, rising := calm && Undisturbed(s, e), rising && Monotone(s, e);
      attempted, pc := t.attempted, t.pc;
      trace := trace + [t];
    }

    ghost predicate AtPhase(job: Job, phase: Phase, dir: Dir)
      reads this, store
    {
      Valid() && pc == Busy(job, phase) && DirOf(dirs, job.pkg) == dir
    }

    /** The gate is open and the APKs are pulled. */
    ghost method Begin(job: Job)
      requires Valid() && Enabled(Now(), Attempt(job))
      modifies this`trace, this`attempted, this`pc, this`calm, this`rising
      ensures Extends(job.pkg) && pc == Busy(job, WritingArtifact)
      ensures attempted == old(attempted)[job.pkg := job.code]
      ensures rising <==> old(rising) && NotBack(old(attempted), job.pkg, job.code)
    {
      Observe(Attempt(job));
    }

    /** Truncating a file that is about to be written in place. */
    method Truncate(job: Job, ghost phase: Phase, name: FileName)
      requires Valid() && pc == Busy(job, phase) && Enabled(Now(), Tear)
      requires name == if phase.WritingSidecar? then Sidecar(job.Art()) else TmpOf(job, phase)
      modifies this`dirs, this`trace, this`attempted, this`pc, this`calm, this`rising
      ensures Continues(job.pkg) && AtPhase(job, phase, DirOf(old(dirs), job.pkg)[name := Torn])
    {
      dirs := dirs[job.pkg := DirOf(dirs, job.pkg)[name := Torn]];
      Observe(Tear);
    }

    /** Writing a file out in full. */
    method Write(job: Job, ghost phase: Phase, name: FileName, content: Content)
      requires Valid() && pc == Busy(job, phase)
      requires phase.WritingArtifact? || phase.WritingSidecar? || phase.WritingLatest?
      requires CanAdvance(DirOf(dirs, job.pkg), job, phase)
      requires Effect(DirOf(dirs, job.pkg), job, phase) == DirOf(dirs, job.pkg)[name := content]
      modifies this`dirs, this`trace, this`attempted, this`pc, this`calm, this`rising
      ensures Continues(job.pkg)
      ensures var before := DirOf(old(dirs), job.pkg);
        AtPhase(AdvanceJob(before, job, phase), Next(phase), before[name := content])
    {
      dirs := dirs[job.pkg := DirOf(dirs, job.pkg)[name := content]];
      Observe(Advance);
    }

    /** Renaming a temporary file into place. */
    method Commit(job: Job, ghost phase: Phase, src: FileName, dst: FileName)
      requires Valid() && pc == Busy(job, phase) && (phase.RenamingArtifact? || phase.RenamingLatest?)
      requires CanAdvance(DirOf(dirs, job.pkg), job, phase)
      requires Effect(DirOf(dirs, job.pkg), job, phase) == Rename(DirOf(dirs, job.pkg), src, dst)
      modifies this`dirs, this`trace, this`attempted, this`pc, this`calm, this`rising
      ensures Continues(job.pkg) && AtPhase(job, Next(phase), Rename(DirOf(old(dirs), job.pkg), src, dst))
    {
      dirs := dirs[job.pkg := Rename(DirOf(dirs, job.pkg), src, dst)];
      Observe(Advance);
    }

    /** Giving up after a failed effect; `clean` when the code first removes its temporary file. */
    method GiveUp(ghost job: Job, ghost phase: Phase, clean: bool, pkg: string, tmp: FileName)
      requires Valid() && pc == Busy(job, phase) && pkg == job.pkg && tmp == TmpOf(job, phase)
      requires Enabled(Now(), Fail(clean))
      modifies this`dirs, this`trace, this`attempted, this`pc, this`calm, this`rising, this`faults
      ensures Continues(pkg) && pc == Idle && faults == old(faults) + 1 && (!clean ==> dirs == old(dirs))
    {
      if clean {
        dirs := dirs[pkg := DirOf(dirs, pkg) - {tmp}];
      }
      Observe(Fail(clean));
      faults := faults + 1;
    }

    /** Writing a temporary file. The artifact's is removed again when that fails, latest.json's is not. */
    method WriteTmp(job: Job, ghost phase: Phase, name: FileName, content: Content, cleans: bool) returns (ok: bool)
      requires Valid() && pc == Busy(job, phase) && (phase.WritingArtifact? || phase.WritingLatest?)
      requires name == TmpOf(job, phase) && cleans == phase.WritingArtifact?
      requires content == if phase.WritingArtifact? then Whole(job.payload) else job.Doc()
      modifies this`dirs, this`trace, this`attempted, this`pc, this`calm, this`rising, this`faults
      ensures Continues(job.pkg)
      ensures ok ==> faults == old(faults) && AtPhase(job, Next(phase), DirOf(old(dirs), job.pkg)[name := content])
      ensures !ok ==> pc == Idle && faults > old(faults)
    {
      var created: bool, written: bool, cleaned: bool := *, *, *;
      if !created {
        GiveUp(job, phase, false, job.pkg, name);
        return false;
      }
      Truncate(job, phase, name);
      if !written {
        GiveUp(job, phase, cleans && cleaned, job.pkg, name);
        return false;
      }
      Write(job, phase, name, content);
      assert DirOf(dirs, job.pkg) == DirOf(old(dirs), job.pkg)[name := content];
      return true;
    }

    /** Renaming a complete temporary file into place, or removing it. */
    method Move(job: Job, ghost phase: Phase, src: FileName, dst: FileName, ghost content: Content) returns (ok: bool)
      requires Valid() && pc == Busy(job, phase) && (phase.RenamingArtifact? || phase.RenamingLatest?)
      requires src == TmpOf(job, phase) && dst == (if phase.RenamingArtifact? then job.Art() else Latest)
      requires src in DirOf(dirs, job.pkg) && DirOf(dirs, job.pkg)[src] == content
      modifies this`dirs, this`trace, this`attempted, this`pc, this`calm, this`rising, this`faults
      ensures Continues(job.pkg)
      ensures ok ==> pc == Busy(job, Next(phase)) && faults == old(faults)
      ensures ok ==> dst in DirOf(dirs, job.pkg) && DirOf(dirs, job.pkg)[dst] == content
      ensures !ok ==> pc == Idle && faults > old(faults)
    {
      var renamed: bool, cleaned: bool := *, *;
      if !renamed {
        GiveUp(job, phase, cleaned, job.pkg, src);
        return false;
      }
      Commit(job, phase, src, dst);
      return true;
    }

    /** `atomicCopy`, and the file handling of the archive writer: temporary file, then rename. */
    method WriteArtifact(job: Job) returns (ok: bool)
      requires Valid() && pc == Busy(job, WritingArtifact)
      modifies this`dirs, this`trace, this`attempted, this`pc, this`calm, this`rising, this`faults
      ensures Continues(job.pkg)
      ensures ok ==> pc == Busy(job, WritingSidecar) && faults == old(faults)
      ensures ok ==> ContentOf(DirOf(dirs, job.pkg), job.Art()) == Whole(job.payload)
      ensures !ok ==> pc == Idle && faults > old(faults)
    {
      var tmp := Tmp(job.Art());
      ok := WriteTmp(job, WritingArtifact, tmp, Whole(job.payload), true);
      if ok {
        ok := Move(job, RenamingArtifact, tmp, job.Art(), Whole(job.payload));
      }
    }

    /** `writeChecksum`: reads the artifact back and writes the checksum file in place. */
    method WriteChecksum(job: Job) returns (ok: bool, summed: Job)
      requires Valid() && pc == Busy(job, WritingSidecar)
      requires ContentOf(DirOf(dirs, job.pkg), job.Art()) == Whole(job.payload)
      modifies this`dirs, this`trace, this`attempted, this`pc, this`calm, this`rising, this`faults
      ensures Continues(job.pkg)
      ensures ok ==> summed == job.(sum := Digest(Whole(job.payload))) && pc == Busy(summed, WritingLatest)
      ensures ok ==> faults == old(faults) && ContentOf(DirOf(dirs, job.pkg), job.Art()) == Whole(job.payload)
      ensures !ok ==> pc == Idle && faults > old(faults)
    {
      summed := job;
      var read: bool, truncated: bool, written: bool := *, *, *;
      if !read {
        GiveUp(job, WritingSidecar, false, job.pkg, TmpOf(job, WritingSidecar));
        return false, summed;
      }
      var sum := Digest(DirOf(dirs, job.pkg)[job.Art()]);
      if truncated {
        Truncate(job, WritingSidecar, Sidecar(job.Art()));
      }
      if !truncated || !written {
        GiveUp(job, WritingSidecar, false, job.pkg, TmpOf(job, WritingSidecar));
        return false, summed;
      }
      Write(job, WritingSidecar, Sidecar(job.Art()), sum);
      summed := job.(sum := sum);
      return true, summed;
    }

    /** `writeLatestJSON`. */
    method WriteLatest(job: Job) returns (ok: bool)
      requires Valid() && pc == Busy(job, WritingLatest)
      modifies this`dirs, this`trace, this`attempted, this`pc, this`calm, this`rising, this`faults
      ensures Continues(job.pkg)
      ensures ok ==> pc == Busy(job, ListingDir) && faults == old(faults)
      ensures ok ==> ContentOf(DirOf(dirs, job.pkg), Latest) == job.Doc()
      ensures !ok ==> pc == Idle && faults > old(faults)
    {
      ok := WriteTmp(job, WritingLatest, LATEST_TMP, job.Doc(), false);
      if ok {
        ok := Move(job, RenamingLatest, LATEST_TMP, Latest, job.Doc());
      }
    }

    /** The listing loop: every entry that is no directory and whose name has a version. */
    method ListVersions(pkg: string) returns (files: seq<FileName>)
      ensures Distinct(files)
      ensures forall n :: n in files <==> n in VersionFiles(DirOf(dirs, pkg))
      ensures forall n :: n in files <==>
        n in DirOf(dirs, pkg) && !DirOf(dirs, pkg)[n].SubDir? && n.Version().Some?
    {
      var dir := DirOf(dirs, pkg);
      files := [];
      var rest := dir.Keys;
      while rest != {}
        invariant rest <= dir.Keys && Distinct(files)
        invariant forall n :: n in files <==> n in VersionFiles(dir) && n !in rest
        decreases rest
      {
        var n :| n in rest;
        rest := rest - {n};
        if !dir[n].SubDir? && n.Version().Some? {
          files := files + [n];
        }
      }
    }

    /** The unstable sort: any file with the greatest code may come next. */
    method SortByCode(files: seq<FileName>) returns (order: seq<FileName>)
      ensures IsOrder(order, Elems(files))
    {
      order := [];
      var rest := set n | n in files;
      while rest != {}
        invariant rest <= Elems(files)
        invariant Distinct(order) && forall n :: n in order <==> n in Elems(files) && n !in rest
        invariant forall i, j :: 0 <= i < j < |order| ==> CodeOf(order[i]) >= CodeOf(order[j])
        invariant forall n, r :: n in order && r in rest ==> CodeOf(r) <= CodeOf(n)
        decreases rest
      {
        ghost var newest := Newest(rest);
        var m :| m in rest && forall r :: r in rest ==> CodeOf(r) <= CodeOf(m);
        forall i | 0 <= i < |order| ensures order[i] != m && CodeOf(order[i]) >= CodeOf(m) {
          assert order[i] in order;
        }
        order := order + [m];
        rest := rest - {m};
      }
    }

    /** One removal of the pruning loop; when it fails the code carries on. */
    method RemoveOne(job: Job, ghost phase: Phase, n: FileName)
      requires Valid() && pc == Busy(job, phase) && (phase.Removing? || phase.RemovingSidecar?) && phase.rest != []
      requires n == if phase.Removing? then phase.rest[0] else Sidecar(phase.rest[0])
      modifies this`dirs, this`trace, this`attempted, this`pc, this`calm, this`rising, this`faults
      ensures Continues(job.pkg) && pc == Busy(job, Next(phase))
      ensures faults == old(faults) ==> DirOf(dirs, job.pkg) == DirOf(old(dirs), job.pkg) - {n}
    {
      var removed: bool := *;
      if removed {
        dirs := dirs[job.pkg := DirOf(dirs, job.pkg) - {n}];
        Observe(Advance);
      } else {
        Observe(Skip);
        faults := faults + 1;
      }
    }

    /** A file and its checksum. */
    method RemovePair(job: Job, ghost rest: seq<FileName>, n: FileName)
      requires Valid() && pc == Busy(job, Removing(rest)) && rest != [] && n == rest[0]
      modifies this`dirs, this`trace, this`attempted, this`pc, this`calm, this`rising, this`faults
      ensures Continues(job.pkg) && pc == Busy(job, Removing(rest[1..]))
      ensures faults == old(faults) ==> DirOf(dirs, job.pkg) == DirOf(old(dirs), job.pkg) - {n} - {Sidecar(n)}
    {
      RemoveOne(job, Removing(rest), n);
      RemoveOne(job, RemovingSidecar(rest), Sidecar(n));
    }

    /** The removal loop, from the fourth file of the order on. */
    method RemoveExcess(job: Job, gone: seq<FileName>)
      requires Valid() && pc == Busy(job, Removing(gone))
      modifies this`dirs, this`trace, this`attempted, this`pc, this`calm, this`rising, this`faults
      ensures Continues(job.pkg) && pc == Busy(job, Removing([]))
      ensures faults == old(faults) ==> DirOf(dirs, job.pkg) == Without(DirOf(old(dirs), job.pkg), gone)
    {
      ghost var before := DirOf(dirs, job.pkg);
      assert Without(before, gone[..0]) == before;
      var i := 0;
      while i < |gone|
        invariant 0 <= i <= |gone|
        invariant Continues(job.pkg) && pc == Busy(job, Removing(gone[i..]))
        invariant faults == old(faults) ==> DirOf(dirs, job.pkg) == Without(before, gone[..i])
      {
        WithoutSnoc(before, gone[..i], gone[i]);
        assert gone[..i + 1] == gone[..i] + [gone[i]] && gone[i..][1..] == gone[i + 1..];
        RemovePair(job, gone[i..], gone[i]);
        i := i + 1;
      }
      assert gone[..i] == gone && gone[i..] == [];
    }

    /** Few enough files: they are neither sorted nor removed. */
    ghost method KeepAll(job: Job, files: set<FileName>)
      requires Valid() && pc == Busy(job, ListingDir)
      requires files == VersionFiles(DirOf(dirs, job.pkg)) && |files| <= KEEP
      modifies this`trace, this`attempted, this`pc, this`calm, this`rising
      ensures Continues(job.pkg) && pc == Busy(job, Removing([]))
    {
      var order := LateOrder(files, Latest);
      OrderSize(order, files);
      Observe(Listed(order));
    }

    /** Sorting, and removing from the fourth file on. */
    method RemoveOld(job: Job, names: seq<FileName>)
      requires Valid() && pc == Busy(job, ListingDir) && |names| > KEEP
      requires Distinct(names) && Elems(names) == VersionFiles(DirOf(dirs, job.pkg))
      modifies this`dirs, this`trace, this`attempted, this`pc, this`calm, this`rising, this`faults
      ensures Continues(job.pkg) && pc == Busy(job, Removing([]))
      ensures faults == old(faults) ==> Pruned(DirOf(old(dirs), job.pkg), KEEP, DirOf(dirs, job.pkg))
    {
      ghost var before := DirOf(dirs, job.pkg);
      SetSize(names);
      var order := SortByCode(names);
      OrderSize(order, VersionFiles(before));
      Observe(Listed(order));
      RemoveExcess(job, order[KEEP..]);
      assert faults == old(faults) ==> PrunedBy(before, KEEP, order, DirOf(dirs, job.pkg));
    }

    /** `pruneOldVersions`. */
    method PruneOldVersions(job: Job)
      requires Valid() && pc == Busy(job, ListingDir)
      modifies this`dirs, this`trace, this`attempted, this`pc, this`calm, this`rising, this`faults
      ensures Continues(job.pkg) && pc == Busy(job, Delivering)
      ensures faults == old(faults) ==> Pruned(DirOf(old(dirs), job.pkg), KEEP, DirOf(dirs, job.pkg))
    {
      var listed: bool := *;
      if !listed {
        Observe(Skip);
        faults := faults + 1;
        return;
      }
      var names := ListVersions(job.pkg);
      assert Elems(names) == VersionFiles(DirOf(dirs, job.pkg));
      SetSize(names);
      if |names| <= KEEP {
        KeepAll(job, Elems(names));
      } else {
        RemoveOld(job, names);
      }
      Observe(Advance);
    }

    /** The sink call; its error is only logged. */
    method Deliver(job: Job)
      requires Valid() && pc == Busy(job, Delivering)
      modifies this`log, this`trace, this`attempted, this`pc, this`calm, this`rising
      ensures Continues(job.pkg) && pc == Busy(job, Recording)
      ensures log == old(log) + [DeliveryOf(run, job)]
    {
      log := log + [DeliveryOf(run, job)];
      Observe(Advance);
    }

    /** `flush`: the registry goes to a temporary file, which then replaces store.json. */
    method Flush(ghost pkg: string)
      requires Valid() && pc == Saving(store.data, false)
      modifies this`trace, this`attempted, this`pc, this`calm, this`rising, this`faults, store`file, store`tmp
      ensures Continues(pkg) && pc == Idle
      ensures if faults == old(faults) then store.file == store.data else store.file == old(store.file)
    {
      var written: bool, renamed: bool := *, *;
      store.WriteTmp(written);
      if written {
        Observe(Advance);
        store.CommitTmp(renamed);
      }
      if written && renamed {
        Observe(Advance);
      } else {
        Observe(Fail(false));
        faults := faults + 1;
      }
    }

    /** `SetLastKnown`: memory first, then the flush, without a way back. */
    method SetLastKnown(job: Job)
      requires Valid() && pc == Busy(job, Recording)
      modifies this`trace, this`attempted, this`pc, this`calm, this`rising, this`faults
      modifies store`data, store`file, store`tmp
      ensures Continues(job.pkg) && pc == Idle
      ensures store.data == old(store.data)[job.pkg := Entry(job.code, job.name)]
      ensures if faults == old(faults) then store.file == store.data else store.file == old(store.file)
    {
      store.Remember(job.pkg, Entry(job.code, job.name));
      Observe(Advance);
      Flush(job.pkg);
    }

    /** The process dies and a new one opens the same output directory. */
    method Restart()
      requires Valid()
      modifies this`run, this`trace, this`attempted, this`pc, this`calm, this`rising, store`data
      ensures Valid() && old(trace) <= trace && pc == Idle
      ensures store.data == store.file == old(store.file) && dirs == old(dirs) && run == old(run) + 1
      ensures (old(pc) == Idle ==> calm == old(calm)) && attempted == old(attempted) && rising == old(rising)
    {
      store.Reopen();
      run := run + 1;
      Observe(Crash);
    }

    /** The three files of an artifact, in their order; each failure ends the attempt. */
    method WriteFiles(job: Job) returns (ok: bool, done: Job)
      requires Valid() && pc == Busy(job, WritingArtifact)
      modifies this`dirs, this`trace, this`attempted, this`pc, this`calm, this`rising, this`faults
      ensures Continues(job.pkg)
      ensures ok ==> pc == Busy(done, ListingDir) && done == job.(sum := Digest(Whole(job.payload)))
      ensures !ok ==> pc == Idle && faults > old(faults)
    {
      done := job;
      ok := WriteArtifact(job);
      if !ok {
        return;
      }
      ok, done := WriteChecksum(job);
      if !ok {
        return;
      }
      ok := WriteLatest(done);
    }

    /** From the rename of the artifact to the sink call. Failing to prune does not stop it. */
    method Publish(job: Job) returns (ok: bool, done: Job)
      requires Valid() && pc == Busy(job, WritingArtifact)
      modifies this`dirs, this`log, this`trace, this`attempted, this`pc, this`calm, this`rising, this`faults
      ensures Continues(job.pkg)
      ensures ok ==> pc == Busy(done, Recording) && done == job.(sum := Digest(Whole(job.payload)))
      ensures ok ==> log == old(log) + [DeliveryOf(run, done)]
      ensures ok ==> ContentOf(DirOf(dirs, job.pkg), Latest) == LatestDoc(job.code, job.name, job.Art())
      ensures !ok ==> pc == Idle && faults > old(faults) && log == old(log)
    {
      ok, done := WriteFiles(job);
      if !ok {
        return;
      }
      PruneOldVersions(done);
      Deliver(done);
      LatestWhenRecording(trace, done);
    }

    /** A source that cannot be opened. A single file is not created before that; an archive is. */
    method FailToRead(job: Job, split: bool)
      requires Valid() && pc == Busy(job, WritingArtifact)
      modifies this`dirs, this`trace, this`attempted, this`pc, this`calm, this`rising, this`faults
      ensures Continues(job.pkg) && pc == Idle && faults > old(faults)
      ensures !split ==> dirs == old(dirs)
    {
      var created: bool, cleaned: bool := *, *;
      if split && created {
        Truncate(job, WritingArtifact, Tmp(job.Art()));
        GiveUp(job, WritingArtifact, cleaned, job.pkg, Tmp(job.Art()));
      } else {
        GiveUp(job, WritingArtifact, false, job.pkg, Tmp(job.Art()));
      }
    }

    /** What a successful extraction hands to the store: a payload made of the merged files. */
    static ghost predicate Extracted(job: Job, release: Release, devices: seq<Device>, policy: Policy) {
      && job.pkg == release.pkg && job.code == release.code && job.name == release.name
      && job.ext == (if IsSplit(devices) then Xapk else Apk)
      && job.sum == Digest(Whole(job.payload))
      && Merged(devices, policy).Some?
      && IsPayloadOf(job.payload, IsSplit(devices), release, AbisOf(devices), Merged(devices, policy).value)
    }

    /** `Extract`. Pulling touches nothing but a private directory; only then does the attempt start. */
    method Extract(release: Release, devices: seq<Device>, policy: Policy) returns (ok: bool, job: Job)
      requires Valid() && pc == Idle && Gate(store.data, release.pkg, release.code) && InInt64(release.code)
      modifies this`dirs, this`log, this`trace, this`attempted, this`pc, this`calm, this`rising, this`faults
      ensures Extends(release.pkg) && Attempts(release.pkg, release.code)
      ensures ok ==> pc == Busy(job, Recording) && Extracted(job, release, devices, policy)
      ensures ok ==> log == old(log) + [DeliveryOf(run, job)]
      ensures ok ==> ContentOf(DirOf(dirs, job.pkg), Latest) == LatestDoc(job.code, job.name, job.Art())
      ensures !ok ==> pc == Idle && faults > old(faults) && log == old(log)
      ensures Merged(devices, policy).None? || Merged(devices, policy).value == map[] ==>
        !ok && trace == old(trace) && dirs == old(dirs)
    {
      job := Job(release.pkg, release.code, release.name, Apk, Archive([]), Torn);
      var split, payload;
      ok, split, payload := Pull(release, devices, policy);
      if !ok {
        faults := faults + 1;
        return;
      }
      job := job.(ext := if split then Xapk else Apk, payload := payload.GetOr(Archive([])));
      Begin(job);
      if payload.None? {
        FailToRead(job, split);
        return false, job;
      }
      ok, job := Publish(job);
    }

    /** One delivery of this version, made of what the clients handed out, is added to the log. */
    static ghost predicate Announced(was: seq<Delivery>, now: seq<Delivery>, run: nat, pkg: string, v: VersionInfo,
                                     clients: seq<Client>, policy: Policy, dir: Dir)
    {
      exists job ::
        && now == was + [DeliveryOf(run, job)]
        && Extracted(job, Release(pkg, v.code, v.name), Devices(clients), policy)
        && (AllAnswered(Queries(clients)) && AllSteady(clients) ==> OneVersion(job.payload, clients, policy, v.code))
        && RightDelivery(now[|now| - 1], job.payload, run, pkg, v, clients, policy, dir)
    }

    static lemma Announces(was: seq<Delivery>, job: Job, run: nat, pkg: string, v: VersionInfo, clients: seq<Client>,
                           policy: Policy, dir: Dir)
      requires Extracted(job, Release(pkg, v.code, v.name), Devices(clients), policy) && InInt64(v.code)
      requires Agreed(Queries(clients)) == Some(v)
      requires ContentOf(dir, Latest) == LatestDoc(job.code, job.name, job.Art())
      ensures Announced(was, was + [DeliveryOf(run, job)], run, pkg, v, clients, policy, dir)
    {
      DeliveredOfOneVersion(job, Release(pkg, v.code, v.name), clients, policy);
      RightlyDelivered(job, run, pkg, v, clients, policy, dir);
    }

    /** The second half of `checkPackage`: an update has been detected. */
    method Update(pkg: string, v: VersionInfo, clients: seq<Client>, policy: Policy)
      requires Valid() && pc == Idle && Gate(store.data, pkg, v.code) && InInt64(v.code)
      requires Agreed(Queries(clients)) == Some(v)
      modifies this`dirs, this`log, this`trace, this`attempted, this`pc, this`calm, this`rising, this`faults
      modifies store`data, store`file, store`tmp
      ensures Extends(pkg) && pc == Idle && Attempts(pkg, v.code)
      ensures log == old(log) ==>
        store.data == old(store.data) && store.file == old(store.file) && faults > old(faults)
      ensures log != old(log) ==>
        && store.data == old(store.data)[pkg := Entry(v.code, v.name)]
        && Announced(old(log), log, run, pkg, v, clients, policy, DirOf(dirs, pkg))
    {
      var ok, job := Extract(Release(pkg, v.code, v.name), Devices(clients), policy);
      if !ok {
        return;
      }
      Announces(old(log), job, run, pkg, v, clients, policy, DirOf(dirs, pkg));
      SetLastKnown(job);
    }

    /** One package of one poll. */
    method CheckPackage(pkg: string, clients: seq<Client>, policy: Policy)
      requires Valid() && pc == Idle && InRange(clients)
      modifies this`dirs, this`log, this`trace, this`attempted, this`pc, this`calm, this`rising, this`faults
      modifies store`data, store`file, store`tmp
      ensures Extends(pkg) && pc == Idle
      ensures if Agreed(Queries(clients)).Some? then Attempts(pkg, Agreed(Queries(clients)).value.code)
              else attempted == old(attempted) && rising == old(rising)
      ensures log == old(log) ==> store.data == old(store.data) && store.file == old(store.file)
      ensures Settled(old(store.data), pkg, clients) ==>
        trace == old(trace) && dirs == old(dirs) && log == old(log) && faults == old(faults)
        && store.data == old(store.data) && store.file == old(store.file)
      ensures faults == old(faults) ==> Settled(store.data, pkg, clients)
      ensures pkg in old(store.data) ==> pkg in store.data && old(store.data)[pkg].code <= store.data[pkg].code
      ensures log != old(log) ==> Agreed(Queries(clients)).Some?
      ensures log != old(log) ==>
        var v := Agreed(Queries(clients)).value;
        && (pkg in old(store.data) ==> old(store.data)[pkg].code < v.code)
        && pkg in store.data && store.data[pkg] == Entry(v.code, v.name)
        && Announced(old(log), log, run, pkg, v, clients, policy, DirOf(dirs, pkg))
    {
      var results := QueryAll(clients);
      var agreed := Agree(results[..]);
      if agreed.None? {
        return;
      }
      var v := agreed.value;
      var known, last := store.GetLastKnown(pkg);
      if known && last.code >= v.code {
        return;
      }
      AgreedInRange(clients);
      Update(pkg, v, clients, policy);
    }

    /** One poll cycle; it stops early when the context is cancelled. `env` is what the emulators answer
        for each package. A poll is a fixed point: a full one without faults leaves every package settled,
        and one that starts with every package settled publishes, delivers and stores nothing. */
    method Poll(pkgs: seq<string>, env: string -> seq<Client>, policy: Policy) returns (done: bool)
      requires Valid() && pc == Idle && forall p :: p in pkgs ==> InRange(env(p))
      modifies this`dirs, this`log, this`trace, this`attempted, this`pc, this`calm, this`rising, this`faults
      modifies store`data, store`file, store`tmp
      ensures Valid() && pc == Idle && old(trace) <= trace && faults >= old(faults)
      ensures faults == old(faults) ==> calm == old(calm)
      ensures old(rising) && NoneBack(old(attempted), pkgs, env) ==> rising
      ensures done && faults == old(faults) ==> AllSettled(store.data, pkgs, env)
      ensures AllSettled(old(store.data), pkgs, env) ==> Unmoved()
    {
      for i := 0 to |pkgs|
        invariant Valid() && pc == Idle && old(trace) <= trace && faults >= old(faults)
        invariant faults == old(faults) ==> calm == old(calm)
        invariant old(rising) && NoneBack(old(attempted), pkgs, env) ==> rising && NoneBack(attempted, pkgs, env)
        invariant faults == old(faults) ==> AllSettled(store.data, pkgs[..i], env)
        invariant AllSettled(old(store.data), pkgs, env) ==> Unmoved()
      {
        var cancelled: bool := *;
        if cancelled {
          return false;
        }
        assert pkgs[i] in pkgs;
        ghost var before := store.data;
        CheckPackage(pkgs[i], env(pkgs[i]), policy);
        KeepsSettled(before, store.data, pkgs, i, env);
      }
      assert pkgs[..|pkgs|] == pkgs;
      done := true;
    }

    twostate predicate Unmoved()
      reads this, store
    {
      && trace == old(trace) && dirs == old(dirs) && log == old(log) && faults == old(faults)
      && store.data == old(store.data) && store.file == old(store.file)
    }
  }

  // The all-runs theorems, at any point of what the code has done.

  /** With attempted codes that never went down, latest.json named a complete artifact of its own code after
      each effect so far, those of earlier process runs included. */
  lemma PollerNeverDangles(w: Poller, i: nat, pkg: string)
    requires w.Valid() && w.rising && i < |w.trace|
    requires Latest in DirOf(w.trace[i].dirs, pkg)
    ensures var dir := DirOf(w.trace[i].dirs, pkg);
      && dir[Latest].LatestDoc? && dir[Latest].file in dir && dir[dir[Latest].file].Whole?
      && dir[Latest].file.Version() == Some(dir[Latest].code)
  {
    var es := TraceMonotone(w.trace, i);
    LatestNeverDangles(es, pkg);
  }

  /** ... and right after each sink call the path and checksum given were those of the complete artifact. */
  lemma PollerTellsTruth(w: Poller, i: nat, job: Job)
    requires w.Valid() && w.rising && i < |w.trace| && w.trace[i].pc == Busy(job, Recording)
    ensures w.trace[i].log != []
    ensures var s := w.trace[i]; var dir := DirOf(s.dirs, job.pkg); var told := s.log[|s.log| - 1];
      && told == DeliveryOf(s.run, job) && told.file in dir && dir[told.file] == Whole(job.payload)
      && told.checksum == Digest(dir[told.file]) == ContentOf(dir, Sidecar(told.file))
  {
    var es := TraceMonotone(w.trace, i);
    SinkSeesArtifact(es, job);
  }

  /** Between attempts of a service without faults, every package directory holds artifacts and checksum
      files in one-to-one correspondence. */
  lemma PollerChecksums(w: Poller, pkg: string)
    requires w.Valid() && w.calm && w.pc == Idle
    ensures var dir := DirOf(w.dirs, pkg);
      && (forall n :: n in VersionFiles(dir) ==> Sidecar(n) in dir && dir[Sidecar(n)] == Digest(dir[n]))
      && (forall n :: Sidecar(n) in dir ==> n in VersionFiles(dir))
  {
    var es := TraceUndisturbed(w.trace, |w.trace| - 1);
    ChecksumsMatch(es, pkg);
  }

  /** Pulling from every client into a private directory, and what the writers make of it. */
  method Pull(release: Release, devices: seq<Device>, policy: Policy)
    returns (ok: bool, split: bool, payload: Option<Payload>)
    ensures ok <==> Merged(devices, policy).Some? && Merged(devices, policy).value != map[]
    ensures ok ==> split == IsSplit(devices)
    ensures ok && payload.Some? ==>
      IsPayloadOf(payload.value, split, release, AbisOf(devices), Merged(devices, policy).value)
    ensures ok && AllPresent(Merged(devices, policy).value) ==> payload.Some?
  {
    var tmp := new Collector.Extraction("extract");
    payload := None;
    ok, split := tmp.Collect(devices, policy);
    if ok {
      assert tmp.Contents().Keys == tmp.collected.Keys;
      ok := tmp.collected != map[];
    }
    if ok {
      payload := tmp.MakePayload(split, release, AbisOf(devices));
    }
  }

  function AbisOf(devices: seq<Device>): seq<string> {
    seq(|devices|, i requires 0 <= i < |devices| => devices[i].abi)
  }

  /** Reported codes are 64-bit numbers, as `ParsedInRange` shows. */
  ghost predicate InRange(clients: seq<Client>) {
    forall c :: c in clients && c.reported.Some? ==> InInt64(c.reported.value.code)
  }

  lemma AgreedInRange(clients: seq<Client>)
    requires InRange(clients) && Agreed(Queries(clients)).Some?
    ensures InInt64(Agreed(Queries(clients)).value.code)
  {
    var results := Queries(clients);
    AgreedMeaning(results);
    var i :| 0 <= i < |results| && results[i] == Agreed(results);
    assert clients[i] in clients;
  }

  ghost predicate AllSteady(clients: seq<Client>) {
    forall c :: c in clients ==> Steady(c)
  }

  lemma DeliveredOfOneVersion(job: Job, release: Release, clients: seq<Client>, policy: Policy)
    requires Poller.Extracted(job, release, Devices(clients), policy) && Agreed(Queries(clients)).Some?
    ensures AllAnswered(Queries(clients)) && AllSteady(clients) ==>
      OneVersion(job.payload, clients, policy, Agreed(Queries(clients)).value.code)
  {
    if AllAnswered(Queries(clients)) && AllSteady(clients) {
      PayloadOfOneVersion(job.payload, IsSplit(Devices(clients)), release, AbisOf(Devices(clients)), clients, policy);
    }
  }

  lemma RightlyDelivered(job: Job, run: nat, pkg: string, v: VersionInfo, clients: seq<Client>, policy: Policy,
                         dir: Dir)
    requires Poller.Extracted(job, Release(pkg, v.code, v.name), Devices(clients), policy) && InInt64(v.code)
    requires ContentOf(dir, Latest) == LatestDoc(job.code, job.name, job.Art())
    ensures RightDelivery(DeliveryOf(run, job), job.payload, run, pkg, v, clients, policy, dir)
  {
    var abis := AbisOf(Devices(clients));
    SplitIff(clients);
    if IsSplit(Devices(clients)) {
      ArchiveIsRight(job.payload, pkg, v, abis, clients, policy);
    } else {
      SingleIsRight(job.payload, Release(pkg, v.code, v.name), abis, clients, policy);
    }
  }

  /** There is nothing to do for this package: no agreement, or nothing newer than what is known. */
  predicate Settled(data: Registry, pkg: string, clients: seq<Client>) {
    var agreed := Agreed(Queries(clients));
    agreed.Some? ==> pkg in data && agreed.value.code <= data[pkg].code
  }

  /** Nowhere do the emulators now agree on a code below the last one attempted. */
  predicate NoneBack(attempted: map<string, int>, pkgs: seq<string>, env: string -> seq<Client>) {
    forall p :: p in pkgs ==>
      var agreed := Agreed(Queries(env(p))); agreed.Some? ==> NotBack(attempted, p, agreed.value.code)
  }

  predicate AllSettled(data: Registry, pkgs: seq<string>, env: string -> seq<Client>) {
    forall p :: p in pkgs ==> Settled(data, p, env(p))
  }

  /** Checking one package unsettles no other, and never lowers what is known. */
  lemma KeepsSettled(before: Registry, after: Registry, pkgs: seq<string>, i: nat, env: string -> seq<Client>)
    requires i < |pkgs| && before - {pkgs[i]} == after - {pkgs[i]}
    requires pkgs[i] in before ==> pkgs[i] in after && before[pkgs[i]].code <= after[pkgs[i]].code
    ensures AllSettled(before, pkgs[..i], env) ==> AllSettled(after, pkgs[..i], env)
    ensures AllSettled(after, pkgs[..i], env) && Settled(after, pkgs[i], env(pkgs[i])) ==>
      AllSettled(after, pkgs[..i + 1], env)
  {
    assert pkgs[..i + 1] == pkgs[..i] + [pkgs[i]];
    forall p | p in pkgs[..i] && Settled(before, p, env(p)) ensures Settled(after, p, env(p)) {
      if p != pkgs[i] {
        assert p in before <==> p in before - {pkgs[i]};
        assert p in after <==> p in after - {pkgs[i]};
      }
    }
  }
}
