/** The package list between memory, packages.json and the background reader (packages/packages.go).
    Mutators hold the lock from their change to the end of their flush. The reader takes a change
    event, reads the file WITHOUT the lock, and replaces the set WITH the lock some time later.
    Anyone may also edit or delete the file. */
module PackageSync {
  import opened Text
  import opened Names

  datatype FileContent = Missing | Listing(names: seq<string>) | Garbled

  predicate AllValid(names: set<string>) {
    forall n :: n in names ==> ValidPackageName(n)
  }

  /** What `load` makes of the file: a set, or nothing when it is missing, unparsable or names an
      invalid package. */
  function Parse(file: FileContent): Option<set<string>> {
    if file.Listing? && forall n :: n in file.names ==> ValidPackageName(n)
    then Some(set n | n in file.names) else None
  }

  /** The set the file stands for; a file never written stands for the empty list. */
  function FileSet(file: FileContent): set<string> {
    if file.Missing? then {} else Parse(file).GetOr({})
  }

  datatype Op = Add(name: string) | Remove(name: string) | Seed(names: seq<string>)

  datatype Lock = Free | Held(op: Op, added: set<string>)
  datatype Loader = Idle | Reading | Holding(names: set<string>)

  /** `missed` records that an event was lost or its read failed, and no later read succeeded. */
  datatype State = State(mem: set<string>, file: FileContent, lock: Lock, loader: Loader,
                         events: nat, missed: bool)

  datatype Event =
    | Begin(op: Op)             // lock taken, set changed in memory
    | FlushOk(list: seq<string>)  // packages.json replaced, lock released
    | FlushFail                 // change undone, lock released
    | Edit(content: FileContent)  // someone else replaces the file
    | Delete                    // someone else deletes the file; no event is delivered for this
    | Take                      // the reader receives a change event
    | Read                      // ... reads the file
    | Swap                      // ... replaces the set under the lock
    | ReadError                 // the read failed three times; the event is gone
    | DropEvent                 // the notification queue overflowed

  function New(mem: set<string>, op: Op): set<string> {
    match op
    case Add(n) => {n}
    case Remove(_) => {}
    case Seed(ns) => (set n | n in ns) - mem
  }

  predicate Accepted(mem: set<string>, op: Op) {
    match op
    case Add(n) => ValidPackageName(n) && n !in mem
    case Remove(n) => n in mem
    case Seed(ns) => (forall n :: n in ns ==> ValidPackageName(n)) && New(mem, op) != {}
  }

  function Apply(mem: set<string>, op: Op): set<string> {
    match op
    case Remove(n) => mem - {n}
    case _ => mem + New(mem, op)
  }

  /** The rollback after a failed flush. */
  function Undo(mem: set<string>, lock: Lock): set<string> {
    match lock
    case Free => mem
    case Held(Remove(n), _) => mem + {n}
    case Held(_, added) => mem - added
  }

  ghost predicate Enabled(s: State, e: Event) {
    match e
    case Begin(op) => s.lock.Free? && Accepted(s.mem, op)
    case FlushOk(list) => s.lock.Held? && StrictlySorted(list) && (set n | n in list) == s.mem
    case FlushFail => s.lock.Held?
    case Edit(content) => !content.Missing?
    case Delete => true
    case Take => s.loader.Idle? && s.events > 0
    case Read => s.loader.Reading?
    case Swap => s.loader.Holding? && s.lock.Free?
    case ReadError => s.loader.Reading?
    case DropEvent => s.events > 0
  }

  function Step(s: State, e: Event): State {
    match e
    case Begin(op) => s.(mem := Apply(s.mem, op), lock := Held(op, New(s.mem, op)))
    case FlushOk(list) => s.(file := Listing(list), lock := Free, events := s.events + 1)
    case FlushFail => s.(mem := Undo(s.mem, s.lock), lock := Free)
    case Edit(content) => s.(file := content, events := s.events + 1)
    case Delete => s.(file := Missing)
    case Take => if s.events > 0 then s.(events := s.events - 1, loader := Reading) else s
    case Read =>
      var parsed := Parse(s.file);
      s.(loader := if parsed.Some? then Holding(parsed.value) else Idle, missed := false)
    case Swap => if s.loader.Holding? then s.(mem := s.loader.names, loader := Idle) else s
    case ReadError => s.(loader := Idle, missed := true)
    case DropEvent => if s.events > 0 then s.(events := s.events - 1, missed := true) else s
  }

  ghost predicate CanRun(s: State, es: seq<Event>)
    decreases |es|
  {
    es == [] || (Enabled(s, es[0]) && CanRun(Step(s, es[0]), es[1..]))
  }

  ghost function Final(s: State, es: seq<Event>): State
    decreases |es|
  {
    if es == [] then s else Final(Step(s, es[0]), es[1..])
  }

  /** Start-up: `New` has loaded the file, nothing is pending. */
  predicate Init(s: State) {
    && s.lock.Free? && s.loader.Idle? && s.events == 0 && !s.missed
    && !s.file.Garbled? && (s.file.Listing? ==> Parse(s.file).Some?) && s.mem == FileSet(s.file)
  }

  predicate Agrees(mem: set<string>, file: FileContent) {
    Parse(file).None? || Parse(file).value == mem
  }

  /** The memory set once the current lock holder has given up. */
  function Prior(s: State): set<string> {
    Undo(s.mem, s.lock)
  }

  /** Either something will still bring memory up to date, or it is up to date. */
  ghost predicate Converging(s: State) {
    || s.events > 0
    || s.missed
    || s.loader.Reading?
    || (s.loader.Holding? && Agrees(s.loader.names, s.file))
    || (s.loader.Idle? && Agrees(Prior(s), s.file))
  }

  /** What the rollback needs to know about the change it undoes. */
  predicate Undoable(s: State) {
    match s.lock
    case Free => true
    case Held(Remove(n), _) => n !in s.mem
    case Held(_, added) => added <= s.mem
  }

  /** Rolling back restores the exact prior set, whatever duplicates or members the input held. */
  lemma UndoRestores(mem: set<string>, op: Op)
    requires Accepted(mem, op)
    ensures Undo(Apply(mem, op), Held(op, New(mem, op))) == mem
  {
  }

  lemma StepConverging(s: State, e: Event)
    requires Converging(s) && Undoable(s) && Enabled(s, e)
    ensures Converging(Step(s, e)) && Undoable(Step(s, e))
  {
    if e.Begin? { UndoRestores(s.mem, e.op); }
  }

  lemma {:induction false} RunConverging(s: State, es: seq<Event>)
    requires Converging(s) && Undoable(s) && CanRun(s, es)
    ensures Converging(Final(s, es)) && Undoable(Final(s, es))
    decreases |es|
  {
    if es == [] {
    } else {
      StepConverging(s, es[0]);
      RunConverging(Step(s, es[0]), es[1..]);
    }
  }

  predicate Quiescent(s: State) {
    s.lock.Free? && s.loader.Idle? && s.events == 0
  }

  /** Convergence over every interleaving: at rest, memory is what the file parses to, unless a
      notification or a read was lost and nothing has been read since. */
  lemma QuiescentAgrees(s: State, es: seq<Event>)
    requires Init(s) && CanRun(s, es)
    requires Quiescent(Final(s, es)) && !Final(s, es).missed
    ensures Agrees(Final(s, es).mem, Final(s, es).file)
  {
    RunConverging(s, es);
  }

  /** The edits, notifications and reads the service is designed for. */
  predicate Benign(e: Event) {
    match e
    case Edit(content) => Parse(content).Some?
    case Delete => false
    case ReadError => false
    case DropEvent => false
    case _ => true
  }

  /** With benign events the file always parses, or was never written and nothing was kept. */
  ghost predicate FileSound(s: State) {
    && !s.missed
    && AllValid(s.mem) && AllValid(Prior(s))
    && (s.loader.Holding? ==> AllValid(s.loader.names))
    && (Parse(s.file).Some? || (s.file.Missing? && Prior(s) == {} && !s.loader.Holding?))
  }

  lemma StepSound(s: State, e: Event)
    requires FileSound(s) && Undoable(s) && Enabled(s, e) && Benign(e)
    ensures FileSound(Step(s, e))
  {
    match e
    case Begin(op) => UndoRestores(s.mem, op);
    case FlushOk(list) => assert forall n :: n in list ==> n in s.mem;
    case _ =>
  }

  lemma {:induction false} RunSound(s: State, es: seq<Event>)
    requires FileSound(s) && Converging(s) && Undoable(s) && CanRun(s, es)
    requires forall e :: e in es ==> Benign(e)
    ensures FileSound(Final(s, es))
    decreases |es|
  {
    if es == [] {
    } else {
      assert es[0] in es;
      StepSound(s, es[0]);
      StepConverging(s, es[0]);
      RunSound(Step(s, es[0]), es[1..]);
    }
  }

  /** With valid edits and no lost notification or read, memory at rest equals the file. */
  lemma QuiescentEqual(s: State, es: seq<Event>)
    requires Init(s) && CanRun(s, es) && forall e :: e in es ==> Benign(e)
    requires Quiescent(Final(s, es))
    ensures Final(s, es).mem == FileSet(Final(s, es).file)
  {
    RunConverging(s, es);
    RunSound(s, es);
  }

  predicate IsLoaderEvent(e: Event) {
    e.Take? || e.Read? || e.Swap?
  }

  function Backlog(s: State): nat {
    3 * s.events + match s.loader case Reading => 2 case Holding(_) => 1 case Idle => 0
  }

  lemma LoaderStep(s: State, e: Event)
    requires s.lock.Free? && Converging(s) && IsLoaderEvent(e) && Enabled(s, e)
    ensures var t := Step(s, e);
      t.lock.Free? && Converging(t) && t.file == s.file && Backlog(t) < Backlog(s) && (Curable(s) ==> Curable(t))
  {
    StepConverging(s, e);
  }

  /** Nothing was lost, or something is still to be read. */
  predicate Curable(s: State) {
    s.events > 0 || s.loader.Reading? || !s.missed
  }

  /** Progress: left alone with the lock free, the reader cannot go on longer than its backlog, whatever
      it does; and once it cannot go on it is at rest, memory being what the unchanged file parses to. Only
      a loss with nothing left to read defeats that. */
  lemma {:induction false} Drains(s: State, es: seq<Event>)
    requires s.lock.Free? && Converging(s) && CanRun(s, es) && forall e :: e in es ==> IsLoaderEvent(e)
    ensures var t := Final(s, es);
      && |es| + Backlog(t) <= Backlog(s) && t.file == s.file
      && (Quiescent(t) <==> forall e :: IsLoaderEvent(e) ==> !Enabled(t, e))
      && (Quiescent(t) && Curable(s) ==> Agrees(t.mem, s.file) && !t.missed)
    decreases |es|
  {
    if es == [] {
      var e := match s.loader case Reading => Read case Holding(_) => Swap case Idle => Take;
      assert !Quiescent(s) ==> IsLoaderEvent(e) && Enabled(s, e);
    } else {
      assert es[0] in es && forall e :: e in es[1..] ==> e in es;
      LoaderStep(s, es[0]);
      Drains(Step(s, es[0]), es[1..]);
    }
  }

  lemma Unroll(s: State, e: Event, rest: seq<Event>)
    ensures CanRun(s, [e] + rest) <==> Enabled(s, e) && CanRun(Step(s, e), rest)
    ensures Final(s, [e] + rest) == Final(Step(s, e), rest)
  {
    assert ([e] + rest)[1..] == rest;
  }

  lemma FlushRun(s: State, name: string, list: seq<string>, rest: seq<Event>)
    requires s.lock.Free? && ValidPackageName(name) && name !in s.mem
    requires StrictlySorted(list) && forall n :: n in list <==> n in s.mem || n == name
    ensures var t := s.(mem := s.mem + {name}, file := Listing(list), events := s.events + 1);
      var es := [Begin(Add(name)), FlushOk(list)] + rest;
      (CanRun(s, es) <==> CanRun(t, rest)) && Final(s, es) == Final(t, rest)
  {
    assert [Begin(Add(name)), FlushOk(list)] + rest == [Begin(Add(name))] + ([FlushOk(list)] + rest);
    Unroll(s, Begin(Add(name)), [FlushOk(list)] + rest);
    Unroll(Step(s, Begin(Add(name))), FlushOk(list), rest);
    assert (set n | n in list) == s.mem + {name};
  }

  lemma ReadRun(s: State, rest: seq<Event>)
    requires s.loader.Idle? && s.events > 0 && Parse(s.file).Some?
    ensures var t := s.(events := s.events - 1, loader := Holding(Parse(s.file).value), missed := false);
      (CanRun(s, [Take, Read] + rest) <==> CanRun(t, rest)) && Final(s, [Take, Read] + rest) == Final(t, rest)
  {
    assert [Take, Read] + rest == [Take] + ([Read] + rest);
    Unroll(s, Take, [Read] + rest);
    Unroll(Step(s, Take), Read, rest);
  }

  lemma SwapRun(s: State, rest: seq<Event>)
    requires s.lock.Free? && s.loader.Holding?
    ensures var t := s.(mem := s.loader.names, loader := Idle);
      (CanRun(s, [Swap] + rest) <==> CanRun(t, rest)) && Final(s, [Swap] + rest) == Final(t, rest)
  {
    Unroll(s, Swap, rest);
  }

  /** The second half of a lost update: the reader holds the list from before `b` was added. */
  lemma StaleSwap(s: State, a: string, b: string, c: string, ab: seq<string>, ac: seq<string>)
    requires s.lock.Free? && s.mem == {a} && s.loader == Holding({a})
    requires ValidPackageName(a) && ValidPackageName(b) && ValidPackageName(c) && a != b && a != c && b != c
    requires StrictlySorted(ab) && forall n :: n in ab <==> n == a || n == b
    requires StrictlySorted(ac) && forall n :: n in ac <==> n == a || n == c
    ensures var es := [Begin(Add(b)), FlushOk(ab)] + ([Swap] + ([Begin(Add(c)), FlushOk(ac)] + []));
      CanRun(s, es) && Final(s, es).file == Listing(ac)
  {
    var e3 := [Begin(Add(c)), FlushOk(ac)] + [];
    FlushRun(s, b, ab, [Swap] + e3);
    var s3 := s.(mem := {a} + {b}, file := Listing(ab), events := s.events + 1);
    SwapRun(s3, e3);
    var s4 := s3.(mem := {a}, loader := Idle);
    FlushRun(s4, c, ac, []);
  }

  /** Convergence is not conservation: a stale swap lets the next flush drop a name that was added
      and never removed. `b` is lost although every notification, read and flush succeeds. */
  lemma LostUpdate(s: State, a: string, b: string, c: string, justA: seq<string>, ab: seq<string>,
                   ac: seq<string>, es: seq<Event>)
    requires s.lock.Free? && s.loader.Idle? && s.mem == {} && s.file.Missing?
    requires ValidPackageName(a) && ValidPackageName(b) && ValidPackageName(c) && a != b && a != c && b != c
    requires StrictlySorted(justA) && forall n :: n in justA <==> n == a
    requires StrictlySorted(ab) && forall n :: n in ab <==> n == a || n == b
    requires StrictlySorted(ac) && forall n :: n in ac <==> n == a || n == c
    requires es == [Begin(Add(b)), FlushOk(ab)] + ([Swap] + ([Begin(Add(c)), FlushOk(ac)] + []))
    ensures var all := [Begin(Add(a)), FlushOk(justA)] + ([Take, Read] + es);
      CanRun(s, all) && Final(s, all).file == Listing(ac) && b !in ac
  {
    FlushRun(s, a, justA, [Take, Read] + es);
    var s1 := s.(mem := {} + {a}, file := Listing(justA), events := s.events + 1);
    assert (set n | n in justA) == {a};
    ReadRun(s1, es);
    StaleSwap(s1.(events := s.events, loader := Holding({a}), missed := false), a, b, c, ab, ac);
  }

  /** Names that meet the conditions of `LostUpdate`. */
  lemma LostUpdateNames()
    ensures ValidPackageName("p.a") && ValidPackageName("p.b") && ValidPackageName("p.c")
    ensures StrictlySorted(["p.a"]) && StrictlySorted(["p.a", "p.b"]) && StrictlySorted(["p.a", "p.c"])
  {
    forall name | name in ["p.a", "p.b", "p.c"] ensures ValidPackageName(name) {
      assert name[1..] == "." + [name[2]] && name[1..][1..] == [name[2]];
      assert Accepts(InLater, name[1..][1..][1..]);
      assert Accepts(BeforeLater, name[1..][1..]);
      assert Accepts(InFirst, name[1..]);
    }
    assert "p.a"[1..] == ".a" && "p.b"[1..] == ".b" && "p.c"[1..] == ".c";
    assert ".a"[1..] == "a" && ".b"[1..] == "b" && ".c"[1..] == "c";
    assert Less("a", "b") && Less("a", "c") && Less(".a", ".b") && Less(".a", ".c");
  }
}
