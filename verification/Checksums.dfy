/** Artifacts and their checksum files (extractor/extractor.go:94-116, 349-362, 431-436). */
module Checksums {
  import opened Text
  import opened Names
  import opened Files
  import opened Protocol

  /** The name whose pair of files is being changed right now. */
  function OpenName(s: State, pkg: string): Option<FileName> {
    if !s.pc.Busy? || s.pc.job.pkg != pkg then None
    else if s.pc.phase.WritingSidecar? then Some(s.pc.job.Art())
    else if s.pc.phase.RemovingSidecar? && s.pc.phase.rest != [] then Some(s.pc.phase.rest[0])
    else None
  }

  /** A version file has its checksum next to it, and a checksum belongs to a version file. */
  predicate PairOk(dir: Dir, n: FileName) {
    && (n in VersionFiles(dir) ==> ContentOf(dir, Sidecar(n)) == Digest(dir[n]))
    && (Sidecar(n) in dir ==> n in VersionFiles(dir))
  }

  ghost predicate Paired(dir: Dir, open: Option<FileName>) {
    forall n :: Some(n) != open ==> PairOk(dir, n)
  }

  /** The pruning walk: the names still to go are distinct version files. The one whose checksum is next
      either could not be removed, and is still paired, or is gone with its checksum left. */
  ghost predicate WalkSound(dir: Dir, pc: Pc) {
    && (pc.Busy? && pc.phase.Removing? ==> Distinct(pc.phase.rest) && AllListed(dir, pc.phase.rest))
    && (pc.Busy? && pc.phase.RemovingSidecar? && pc.phase.rest != [] ==>
          && Distinct(pc.phase.rest) && AllListed(dir, pc.phase.rest[1..])
          && if pc.phase.rest[0] in VersionFiles(dir) then PairOk(dir, pc.phase.rest[0])
             else Sidecar(pc.phase.rest[0]) in dir)
  }

  predicate AllListed(dir: Dir, names: seq<FileName>) {
    forall n :: n in names ==> n in VersionFiles(dir)
  }

  /** The removal of the file whose checksum is next has succeeded. */
  predicate FileGone(dir: Dir, pc: Pc) {
    pc.Busy? && pc.phase.RemovingSidecar? && pc.phase.rest != [] ==> pc.phase.rest[0] !in VersionFiles(dir)
  }

  ghost predicate AllPaired(s: State) {
    forall p :: Paired(DirOf(s.dirs, p), OpenName(s, p))
  }

  /** No failure and no crash while a pair is half changed. Anywhere else both are allowed. */
  predicate Undisturbed(s: State, e: Event) {
    && (s.pc.Busy? && s.pc.phase.WritingSidecar? ==> !e.Fail? && !e.Crash?)
    && (s.pc.Busy? && s.pc.phase.Removing? ==> !e.Skip?)
    && (s.pc.Busy? && s.pc.phase.RemovingSidecar? ==> !e.Skip? && !e.Crash?)
  }

  ghost predicate UndisturbedRun(s: State, es: seq<Event>)
    decreases |es|
  {
    es == [] || (Undisturbed(s, es[0]) && UndisturbedRun(Step(s, es[0]), es[1..]))
  }

  ghost predicate Walking(s: State) {
    s.pc.Busy? ==> WalkSound(DirOf(s.dirs, s.pc.job.pkg), s.pc)
  }

  ghost predicate PairSound(s: State) {
    AllPaired(s) && Walking(s) && (s.pc.Busy? ==> FileGone(DirOf(s.dirs, s.pc.job.pkg), s.pc))
  }

  /** The only moments at which a pair can come apart: giving up or dying before the checksum of a renamed
      artifact is written, unless the checksum file already there, untouched so far, is the right one (as the
      artifact has just been renamed, that is to say its pair is in order); and, in pruning, going on to
      delete the checksum after the removal of its file has failed, or not deleting it after that has
      succeeded. */
  predicate Harmless(s: State, e: Event) {
    s.pc.Busy? ==>
      var dir, job, phase := DirOf(s.dirs, s.pc.job.pkg), s.pc.job, s.pc.phase;
      && (phase.WritingSidecar? && (e.Fail? || e.Crash?) ==>
            ContentOf(dir, Sidecar(job.Art())) == Digest(Whole(job.payload)))
      && (phase.RemovingSidecar? && phase.rest != [] && e.Advance? ==> phase.rest[0] !in VersionFiles(dir))
      && (phase.RemovingSidecar? && phase.rest != [] && (e.Skip? || e.Crash?) ==> phase.rest[0] in VersionFiles(dir))
  }

  lemma WritePaired(s: State)
    requires Sound(s) && AllPaired(s) && s.pc.Busy? && Enabled(s, Advance) && !s.pc.phase.Recording?
    requires !s.pc.phase.Removing? && !s.pc.phase.RemovingSidecar?
    ensures var t, pkg := Step(s, Advance), s.pc.job.pkg; Paired(DirOf(t.dirs, pkg), OpenName(t, pkg))
  {
    var t, job, phase := Step(s, Advance), s.pc.job, s.pc.phase;
    var dir, after := DirOf(s.dirs, job.pkg), DirOf(t.dirs, job.pkg);
    assert Paired(dir, OpenName(s, job.pkg));
    forall n | Some(n) != OpenName(t, job.pkg) ensures PairOk(after, n) {
      assert Some(n) != OpenName(s, job.pkg) ==> PairOk(dir, n);
    }
  }

  lemma RemovalPaired(s: State)
    requires Sound(s) && AllPaired(s) && s.pc.Busy? && (s.pc.phase.Removing? || s.pc.phase.RemovingSidecar?)
    ensures var t, pkg := Step(s, Advance), s.pc.job.pkg;
      Paired(DirOf(t.dirs, pkg), OpenName(t, pkg)) <==> Harmless(s, Advance)
  {
    var t, job, phase := Step(s, Advance), s.pc.job, s.pc.phase;
    var dir, after := DirOf(s.dirs, job.pkg), DirOf(t.dirs, job.pkg);
    assert Paired(dir, OpenName(s, job.pkg));
    assert phase.rest != [] ==> phase.rest[0] in phase.rest;
    if Harmless(s, Advance) {
      forall n | Some(n) != OpenName(t, job.pkg) ensures PairOk(after, n) {
        assert Some(n) != OpenName(s, job.pkg) ==> PairOk(dir, n);
      }
    } else {
      assert !PairOk(after, phase.rest[0]);
    }
  }

  lemma OtherPaired(s: State, e: Event)
    requires Sound(s) && AllPaired(s) && Walking(s) && Enabled(s, e) && s.pc.Busy? && !e.Advance?
    ensures var t, pkg := Step(s, e), s.pc.job.pkg;
      Paired(DirOf(t.dirs, pkg), OpenName(t, pkg)) <==> Harmless(s, e)
  {
    var t, job, phase := Step(s, e), s.pc.job, s.pc.phase;
    var dir, after := DirOf(s.dirs, job.pkg), DirOf(t.dirs, job.pkg);
    assert Paired(dir, OpenName(s, job.pkg));
    if Harmless(s, e) {
      forall n | Some(n) != OpenName(t, job.pkg) ensures PairOk(after, n) {
        assert Some(n) != OpenName(s, job.pkg) ==> PairOk(dir, n);
      }
    } else {
      assert !PairOk(after, OpenName(s, job.pkg).value);
    }
  }

  /** One step keeps every pair together exactly when it is harmless. */
  lemma PairsKeptIff(s: State, e: Event)
    requires Sound(s) && AllPaired(s) && Walking(s) && Enabled(s, e)
    ensures AllPaired(Step(s, e)) <==> Harmless(s, e)
  {
    var t := Step(s, e);
    forall p | !Concerns(s.pc, p) ensures Paired(DirOf(t.dirs, p), OpenName(t, p)) {
      assert Paired(DirOf(s.dirs, p), OpenName(s, p));
      DirFrame(s, e, p);
    }
    if s.pc.Busy? {
      var pkg := s.pc.job.pkg;
      assert Paired(DirOf(s.dirs, pkg), OpenName(s, pkg));
      if !e.Advance? {
        OtherPaired(s, e);
      } else if s.pc.phase.Removing? || s.pc.phase.RemovingSidecar? {
        RemovalPaired(s);
      } else if !s.pc.phase.Recording? {
        WritePaired(s);
      }
      assert Paired(DirOf(t.dirs, pkg), OpenName(t, pkg)) <==> Harmless(s, e);
    }
  }

  ghost predicate AlwaysPaired(s: State, es: seq<Event>)
    decreases |es|
  {
    AllPaired(s) && (es == [] || AlwaysPaired(Step(s, es[0]), es[1..]))
  }

  ghost predicate HarmlessRun(s: State, es: seq<Event>)
    decreases |es|
  {
    es == [] || (Harmless(s, es[0]) && HarmlessRun(Step(s, es[0]), es[1..]))
  }

  lemma StillListed(dir: Dir, names: seq<FileName>, gone: FileName)
    requires AllListed(dir, names) && gone !in names
    ensures AllListed(dir - {gone}, names)
  {
  }

  lemma WalkFile(s: State, e: Event)
    requires AllPaired(s) && Walking(s) && s.pc.Busy? && s.pc.phase.Removing? && (e.Advance? || e.Skip?)
    ensures Walking(Step(s, e))
  {
    var dir, rest := DirOf(s.dirs, s.pc.job.pkg), s.pc.phase.rest;
    assert Paired(dir, OpenName(s, s.pc.job.pkg));
    if rest != [] {
      assert rest[0] in rest && rest[0] !in rest[1..] && PairOk(dir, rest[0]);
      assert AllListed(dir, rest[1..]);
      StillListed(dir, rest[1..], rest[0]);
    }
  }

  lemma WalkSidecar(s: State, e: Event)
    requires Walking(s) && s.pc.Busy? && s.pc.phase.RemovingSidecar? && (e.Advance? || e.Skip?)
    ensures Walking(Step(s, e))
  {
    var dir, rest := DirOf(s.dirs, s.pc.job.pkg), s.pc.phase.rest;
    if rest != [] {
      var more := rest[1..];
      assert Distinct(more) && AllListed(dir, more);
      assert forall n :: n in more ==> n != Sidecar(rest[0]);
      StillListed(dir, more, Sidecar(rest[0]));
      assert Step(s, e).pc.phase == Removing(more);
      assert DirOf(Step(s, e).dirs, s.pc.job.pkg) == if e.Advance? then dir - {Sidecar(rest[0])} else dir;
    }
  }

  /** The walk stays in order even when a removal fails. */
  lemma StepWalking(s: State, e: Event)
    requires AllPaired(s) && Walking(s) && Enabled(s, e)
    ensures Walking(Step(s, e))
  {
    if s.pc.Busy? && s.pc.phase.Removing? && (e.Advance? || e.Skip?) {
      WalkFile(s, e);
    } else if s.pc.Busy? && s.pc.phase.RemovingSidecar? && (e.Advance? || e.Skip?) {
      WalkSidecar(s, e);
    } else if e.Listed? {
      assert forall n :: n in Excess(e.order) ==> n in e.order;
    }
  }

  /** Over a whole run, pairs stay together throughout exactly when every step is harmless. */
  lemma {:induction false} PairsAlwaysKeptIff(s: State, es: seq<Event>)
    requires Sound(s) && AllPaired(s) && Walking(s) && CanRun(s, es)
    ensures AlwaysPaired(s, es) <==> HarmlessRun(s, es)
    decreases |es|
  {
    if es == [] {
    } else {
      StepSound(s, es[0]);
      PairsKeptIff(s, es[0]);
      StepWalking(s, es[0]);
      if Harmless(s, es[0]) { PairsAlwaysKeptIff(Step(s, es[0]), es[1..]); }
    }
  }

  lemma StepFileGone(s: State, e: Event)
    requires Sound(s) && Enabled(s, e) && Undisturbed(s, e) && Step(s, e).pc.Busy?
    ensures FileGone(DirOf(Step(s, e).dirs, Step(s, e).pc.job.pkg), Step(s, e).pc)
  {
  }

  lemma StepPaired(s: State, e: Event)
    requires Sound(s) && PairSound(s) && Enabled(s, e) && Undisturbed(s, e)
    ensures PairSound(Step(s, e))
  {
    PairsKeptIff(s, e);
    StepWalking(s, e);
    if Step(s, e).pc.Busy? { StepFileGone(s, e); }
  }

  lemma {:induction false} RunPaired(s: State, es: seq<Event>)
    requires Sound(s) && PairSound(s) && CanRun(s, es) && UndisturbedRun(s, es)
    ensures PairSound(Final(s, es))
    decreases |es|
  {
    if es == [] {
    } else {
      StepSound(s, es[0]);
      StepPaired(s, es[0]);
      RunPaired(Step(s, es[0]), es[1..]);
    }
  }

  /** Artifacts and checksum files correspond one to one, each checksum being that of its artifact,
      whenever no pair is half changed: in particular after every completed extraction of a run without
      faults. Failures and crashes at other moments do no harm. */
  lemma ChecksumsMatch(es: seq<Event>, pkg: string)
    requires CanRun(INIT, es) && UndisturbedRun(INIT, es) && OpenName(Final(INIT, es), pkg).None?
    ensures var dir := DirOf(Final(INIT, es).dirs, pkg);
      && (forall n :: n in VersionFiles(dir) ==> Sidecar(n) in dir && dir[Sidecar(n)] == Digest(dir[n]))
      && (forall n :: Sidecar(n) in dir ==> n in VersionFiles(dir))
  {
    RunPaired(INIT, es);
    var dir := DirOf(Final(INIT, es).dirs, pkg);
    assert Paired(dir, OpenName(Final(INIT, es), pkg));
    forall n ensures n in VersionFiles(dir) ==> Sidecar(n) in dir && dir[Sidecar(n)] == Digest(dir[n])
             ensures Sidecar(n) in dir ==> n in VersionFiles(dir)
    {
      assert PairOk(dir, n);
    }
  }
}
