/** When the package list loses nothing (packages/packages.go:58-132, 190-241): nobody else writes the
    file, and still `PackageSync.LostUpdate` loses a name. What goes wrong, and exactly when. */
module Conservation {
  import opened Text
  import opened Names
  import opened PackageSync

  predicate NamesValid(s: State) {
    AllValid(s.mem) && AllValid(Prior(s)) && (s.loader.Holding? ==> AllValid(s.loader.names))
  }

  /** The lock holder has made exactly its change. */
  predicate LockSound(s: State) {
    match s.lock
    case Free => true
    case Held(op, added) => Accepted(Prior(s), op) && added == New(Prior(s), op) && s.mem == Apply(Prior(s), op)
  }

  lemma StepLockSound(s: State, e: Event)
    requires LockSound(s) && NamesValid(s) && Enabled(s, e)
    ensures LockSound(Step(s, e)) && NamesValid(Step(s, e))
  {
    if e.Begin? { UndoRestores(s.mem, e.op); }
  }

  lemma FlushedSet(s: State, list: seq<string>)
    requires NamesValid(s) && Enabled(s, FlushOk(list))
    ensures FileSet(Step(s, FlushOk(list)).file) == s.mem
  {
    assert forall n :: n in list ==> n in s.mem;
  }

  predicate Internal(e: Event) {
    !e.Edit? && !e.Delete?
  }

  /** Memory, without the change of a lock holder that has not flushed yet, is what the file says. */
  predicate InAgreement(s: State) {
    Prior(s) == FileSet(s.file)
  }

  /** The reader does not install an outdated set. */
  predicate Current(s: State, e: Event) {
    e.Swap? && s.loader.Holding? ==> s.loader.names == FileSet(s.file)
  }

  /** One step breaks the agreement of memory and file if and only if it installs an outdated set. */
  lemma AgreementKeptIff(s: State, e: Event)
    requires LockSound(s) && NamesValid(s) && InAgreement(s) && Enabled(s, e) && Internal(e)
    ensures InAgreement(Step(s, e)) <==> Current(s, e)
  {
    match e
    case Begin(op) => UndoRestores(s.mem, op);
    case FlushOk(list) => FlushedSet(s, list);
    case _ =>
  }

  ghost predicate AlwaysAgrees(s: State, es: seq<Event>)
    decreases |es|
  {
    InAgreement(s) && (es == [] || AlwaysAgrees(Step(s, es[0]), es[1..]))
  }

  ghost predicate AllCurrent(s: State, es: seq<Event>)
    decreases |es|
  {
    es == [] || (Current(s, es[0]) && AllCurrent(Step(s, es[0]), es[1..]))
  }

  predicate AllInternal(es: seq<Event>) {
    forall e :: e in es ==> Internal(e)
  }

  lemma {:induction false} RunAgrees(s: State, es: seq<Event>)
    requires LockSound(s) && NamesValid(s) && InAgreement(s) && CanRun(s, es) && AllInternal(es)
    ensures AlwaysAgrees(s, es) <==> AllCurrent(s, es)
    decreases |es|
  {
    if es == [] {
    } else {
      assert es[0] in es && forall e :: e in es[1..] ==> e in es;
      StepLockSound(s, es[0]);
      AgreementKeptIff(s, es[0]);
      if Current(s, es[0]) { RunAgrees(Step(s, es[0]), es[1..]); }
    }
  }

  /** Over whole runs, from start-up, with failures and losses of any kind: memory and file agree
      throughout if and only if the reader never installs an outdated set. */
  lemma AgreesThroughoutIff(s: State, es: seq<Event>)
    requires Init(s) && CanRun(s, es) && AllInternal(es)
    ensures AlwaysAgrees(s, es) <==> AllCurrent(s, es)
  {
    RunAgrees(s, es);
  }

  /** No flush succeeds between a read of the file and the swap that follows it. */
  ghost predicate NoFlushWhileHolding(s: State, es: seq<Event>)
    decreases |es|
  {
    es == [] || ((es[0].FlushOk? ==> !s.loader.Holding?) && NoFlushWhileHolding(Step(s, es[0]), es[1..]))
  }

  lemma {:induction false} NoFlushIsCurrent(s: State, es: seq<Event>)
    requires CanRun(s, es) && AllInternal(es) && NoFlushWhileHolding(s, es)
    requires s.loader.Holding? ==> s.loader.names == FileSet(s.file)
    ensures AllCurrent(s, es)
    decreases |es|
  {
    if es == [] {
    } else {
      assert es[0] in es && forall e :: e in es[1..] ==> e in es;
      NoFlushIsCurrent(Step(s, es[0]), es[1..]);
    }
  }

  /** For callers: mutators that leave the reader alone between its read and its swap are safe. */
  lemma CalmReaderAgrees(s: State, es: seq<Event>)
    requires Init(s) && CanRun(s, es) && AllInternal(es) && NoFlushWhileHolding(s, es)
    ensures AlwaysAgrees(s, es)
  {
    NoFlushIsCurrent(s, es);
    AgreesThroughoutIff(s, es);
  }

  // What the agreement is good for.

  /** A flush changes the file by its own operation and nothing else. */
  predicate Conserves(s: State, e: Event) {
    e.FlushOk? && s.lock.Held? ==> FileSet(Step(s, e).file) == Apply(FileSet(s.file), s.lock.op)
  }

  ghost predicate AllConserve(s: State, es: seq<Event>)
    decreases |es|
  {
    es == [] || (Conserves(s, es[0]) && AllConserve(Step(s, es[0]), es[1..]))
  }

  lemma {:induction false} RunConserves(s: State, es: seq<Event>)
    requires LockSound(s) && NamesValid(s) && CanRun(s, es) && AlwaysAgrees(s, es)
    ensures AllConserve(s, es)
    decreases |es|
  {
    if es == [] {
    } else {
      StepLockSound(s, es[0]);
      if es[0].FlushOk? { FlushedSet(s, es[0].list); }
      RunConserves(Step(s, es[0]), es[1..]);
    }
  }

  /** As long as no outdated set is installed, every flush of an `Add`, a `Remove` or a `Seed` changes the
      file by exactly the names it is about. */
  lemma FlushesConserve(s: State, es: seq<Event>)
    requires Init(s) && CanRun(s, es) && AllInternal(es) && AllCurrent(s, es)
    ensures AllConserve(s, es)
  {
    AgreesThroughoutIff(s, es);
    RunConserves(s, es);
  }

  predicate Removes(e: Event, n: string) {
    e == Begin(Remove(n))
  }

  lemma {:induction false} RunKeepsName(s: State, es: seq<Event>, n: string)
    requires CanRun(s, es) && AllInternal(es) && AllConserve(s, es) && n in FileSet(s.file)
    requires forall e :: e in es ==> !Removes(e, n)
    requires s.lock.Held? ==> s.lock.op != Remove(n)
    ensures n in FileSet(Final(s, es).file)
    decreases |es|
  {
    if es == [] {
    } else {
      assert es[0] in es && forall e :: e in es[1..] ==> e in es;
      assert Internal(es[0]) && Conserves(s, es[0]) && !Removes(es[0], n);
      RunKeepsName(Step(s, es[0]), es[1..], n);
    }
  }

  /** The promise that `LostUpdate` breaks: a name once in the file stays until it is removed, if no
      outdated set is installed. */
  lemma NameStays(s: State, before: seq<Event>, after: seq<Event>, n: string)
    requires Init(s) && CanRun(s, before + after) && AllInternal(before + after) && AllCurrent(s, before + after)
    requires Final(s, before).lock.Free? && n in FileSet(Final(s, before).file)
    requires forall e :: e in after ==> !Removes(e, n)
    ensures n in FileSet(Final(s, before + after).file)
  {
    FlushesConserve(s, before + after);
    SplitRun(s, before, after);
    assert forall e :: e in after ==> e in before + after;
    RunKeepsName(Final(s, before), after, n);
  }

  lemma {:induction false} SplitRun(s: State, before: seq<Event>, after: seq<Event>)
    requires CanRun(s, before + after) && AllConserve(s, before + after)
    ensures CanRun(Final(s, before), after) && AllConserve(Final(s, before), after)
    ensures Final(s, before + after) == Final(Final(s, before), after)
    decreases |before|
  {
    if before == [] {
      assert before + after == after;
    } else {
      assert (before + after)[1..] == before[1..] + after;
      SplitRun(Step(s, before[0]), before[1..], after);
    }
  }

  /** And nothing less will do: with the lock free, every operation that may come next conserves the file
      if and only if memory agrees with it. */
  lemma ConservesNextIff(s: State)
    requires s.lock.Free? && NamesValid(s)
    ensures (forall op, list :: Enabled(s, Begin(op)) && Enabled(Step(s, Begin(op)), FlushOk(list)) ==>
               Conserves(Step(s, Begin(op)), FlushOk(list)))
       <==> InAgreement(s)
  {
    if InAgreement(s) {
      forall op, list | Enabled(s, Begin(op)) && Enabled(Step(s, Begin(op)), FlushOk(list))
        ensures Conserves(Step(s, Begin(op)), FlushOk(list))
      {
        StepLockSound(s, Begin(op));
        FlushedSet(Step(s, Begin(op)), list);
      }
    } else {
      var n := UnusedName(s.mem + FileSet(s.file));
      var mid := Step(s, Begin(Add(n)));
      var list := SortedList(mid.mem);
      StepLockSound(s, Begin(Add(n)));
      FlushedSet(mid, list);
      assert Enabled(s, Begin(Add(n))) && Enabled(mid, FlushOk(list));
      assert s.mem + {n} - {n} == s.mem && FileSet(s.file) + {n} - {n} == FileSet(s.file);
    }
  }

  lemma {:induction false} LengthBound(names: set<string>) returns (bound: nat)
    ensures forall n :: n in names ==> |n| <= bound
    decreases names
  {
    if names == {} {
      bound := 0;
    } else {
      var n :| n in names;
      bound := LengthBound(names - {n});
      if bound < |n| { bound := |n|; }
      assert forall m :: m in names ==> m == n || m in names - {n};
    }
  }

  lemma {:induction false} LettersAccepted(n: nat)
    ensures Accepts(InLater, seq(n, _ => 'a'))
  {
    if n == 0 {
    } else {
      var s := seq(n, _ => 'a');
      assert s[1..] == seq(n - 1, _ => 'a');
      LettersAccepted(n - 1);
    }
  }

  lemma UnusedName(names: set<string>) returns (n: string)
    ensures ValidPackageName(n) && n !in names
  {
    var bound := LengthBound(names);
    var tail := seq(bound, _ => 'a');
    LettersAccepted(bound);
    n := "p.a" + tail;
    assert n[1..] == ".a" + tail && n[1..][1..] == "a" + tail && n[1..][1..][1..] == tail;
    assert Accepts(BeforeLater, n[1..][1..]);
    assert Accepts(InFirst, n[1..]);
  }

  lemma {:induction false} Least(names: set<string>) returns (m: string)
    requires names != {}
    ensures m in names && forall n :: n in names && n != m ==> Less(m, n)
    decreases names
  {
    m :| m in names;
    if names == {m} {
    } else {
      var other := Least(names - {m});
      LessTotal(m, other);
      if Less(m, other) {
        forall n | n in names && n != m && n != other ensures Less(m, n) {
          LessTransitive(m, other, n);
        }
      } else {
        m := other;
      }
    }
  }

  lemma {:induction false} SortedList(names: set<string>) returns (list: seq<string>)
    ensures StrictlySorted(list) && forall n :: n in list <==> n in names
    decreases names
  {
    if names == {} {
      list := [];
    } else {
      var m := Least(names);
      var rest := SortedList(names - {m});
      list := [m] + rest;
      forall i, j | 0 <= i < j < |list| ensures Less(list[i], list[j]) {
        assert list[j] == rest[j - 1] && rest[j - 1] in rest;
        if i > 0 { assert list[i] == rest[i - 1]; }
      }
      assert forall n :: n in list <==> n == m || n in rest;
    }
  }
}
