/** What the sink is told, over all runs of the machine (extractor/extractor.go:105-116,
    watcher/watcher.go:158-186). */
module Deliveries {
  import opened Protocol

  ghost predicate Told(log: seq<Delivery>, pkg: string, code: int) {
    exists i :: 0 <= i < |log| && log[i].pkg == pkg && log[i].code == code
  }

  /** Per package and process run, codes only go up. */
  ghost predicate Increasing(log: seq<Delivery>) {
    forall i, j :: 0 <= i < j < |log| && log[i].pkg == log[j].pkg && log[i].run == log[j].run ==>
      log[i].code < log[j].code
  }

  predicate Remembered(s: State, d: Delivery) {
    || (d.pkg in s.mem && d.code <= s.mem[d.pkg].code)
    || (s.pc.Busy? && s.pc.phase.Recording? && d.pkg == s.pc.job.pkg && d.code <= s.pc.job.code)
  }

  ghost predicate LogSound(s: State) {
    && Increasing(s.log)
    && (forall d :: d in s.log ==> d.run <= s.run && (d.run == s.run ==> Remembered(s, d)))
    && (forall p :: p in s.mem ==> Told(s.log, p, s.mem[p].code))
    && (forall p :: p in s.durable ==> Told(s.log, p, s.durable[p].code))
    && (s.pc.Busy? && s.pc.phase.Recording? ==> Told(s.log, s.pc.job.pkg, s.pc.job.code))
  }

  lemma DeliverSound(s: State)
    requires Sound(s) && LogSound(s) && s.pc.Busy? && s.pc.phase.Delivering?
    ensures LogSound(Step(s, Advance))
  {
    var t, n := Step(s, Advance), |s.log|;
    var job := s.pc.job;
    assert t.log[n] == DeliveryOf(s.run, job);
    forall i | 0 <= i < n && s.log[i].pkg == job.pkg && s.log[i].run == s.run ensures s.log[i].code < job.code {
      assert Remembered(s, s.log[i]);
    }
    forall p, c | Told(s.log, p, c) ensures Told(t.log, p, c) {
      var i :| 0 <= i < n && s.log[i].pkg == p && s.log[i].code == c;
      assert t.log[i] == s.log[i];
    }
    assert Told(t.log, job.pkg, job.code);
  }

  predicate IsRecording(pc: Pc) {
    pc.Busy? && pc.phase.Recording?
  }

  lemma RecordSound(s: State)
    requires LogSound(s) && IsRecording(s.pc) && Gate(s.mem, s.pc.job.pkg, s.pc.job.code)
    ensures LogSound(Step(s, Advance))
  {
    var t := Step(s, Advance);
    forall d | d in s.log && d.run == s.run ensures Remembered(t, d) {
      assert Remembered(s, d);
    }
  }

  /** Effects that neither deliver nor record. */
  lemma QuietSound(s: State, t: State)
    requires LogSound(s) && !IsRecording(s.pc) && !IsRecording(t.pc)
    requires t.log == s.log && t.mem == s.mem && t.run == s.run
    requires t.durable == s.durable || t.durable == s.mem
    ensures LogSound(t)
  {
    forall d | d in s.log && d.run == s.run ensures Remembered(t, d) {
      assert Remembered(s, d);
    }
  }

  lemma StepLogSound(s: State, e: Event)
    requires Sound(s) && LogSound(s) && Enabled(s, e)
    ensures LogSound(Step(s, e))
  {
    if e.Crash? {
    } else if e.Advance? && s.pc.Busy? && s.pc.phase.Delivering? {
      DeliverSound(s);
    } else if e.Advance? && IsRecording(s.pc) {
      RecordSound(s);
    } else {
      QuietSound(s, Step(s, e));
    }
  }

  lemma {:induction false} RunLogSound(s: State, es: seq<Event>)
    requires Sound(s) && LogSound(s) && CanRun(s, es)
    ensures LogSound(Final(s, es))
    decreases |es|
  {
    if es == [] {
    } else {
      StepSound(s, es[0]);
      StepLogSound(s, es[0]);
      RunLogSound(Step(s, es[0]), es[1..]);
    }
  }

  /** Within one process run the codes the sink is called with strictly increase for each package, even
      when saving the store fails; and no code is ever kept, in memory or on disk, that the sink was
      not called with before. */
  lemma SinkToldFirst(es: seq<Event>)
    requires CanRun(INIT, es)
    ensures var s := Final(INIT, es);
      && Increasing(s.log)
      && (forall p :: p in s.mem ==> Told(s.log, p, s.mem[p].code))
      && (forall p :: p in s.durable ==> Told(s.log, p, s.durable[p].code))
  {
    RunLogSound(INIT, es);
  }

  /** The log is history: a run only adds to it. */
  lemma {:induction false} LogOnlyGrows(s: State, es: seq<Event>)
    requires CanRun(s, es)
    ensures s.log <= Final(s, es).log
    decreases |es|
  {
    if es == [] {
    } else {
      LogOnlyGrows(Step(s, es[0]), es[1..]);
    }
  }

  // One package's extraction and everything else.

  /** An effect of one package's extraction leaves every other package's directory and known version
      alone; saving the store can only make another package's version durable as it stands in memory. */
  lemma OthersUntouched(s: State, e: Event, pkg: string)
    requires Sound(s) && Enabled(s, e) && !e.Crash? && !Concerns(s.pc, pkg)
    ensures DirOf(Step(s, e).dirs, pkg) == DirOf(s.dirs, pkg)
    ensures pkg in Step(s, e).mem <==> pkg in s.mem
    ensures pkg in s.mem ==> Step(s, e).mem[pkg] == s.mem[pkg]
    ensures var after := Step(s, e).durable;
      after == s.durable || ((pkg in after <==> pkg in s.mem) && (pkg in after ==> after[pkg] == s.mem[pkg]))
  {
    DirFrame(s, e, pkg);
    assert s.pc.Saving? ==> Step(s, e).mem == s.mem;
    assert !s.pc.Saving? ==> Step(s, e).durable == s.durable;
  }
}
