/** The package manager as the code runs it (packages/packages.go): a set field changed in place,
    flushed, and rolled back when the flush fails. */
module Packages {
  import opened Text
  import opened Names
  import opened PackageSync
  import Sorting

  /** How the two file operations of a flush turn out. */
  datatype FlushIo = Works | WriteFails | RenameFails

  datatype Status = Done | InvalidName | AlreadyTracked | NotTracked | FlushFailed

  datatype LoadStatus = Loaded | NoFile | ReadFailed | Rejected

  class Manager {
    var set_: set<string>
    var file: FileContent
    ghost var events: nat

    constructor (file: FileContent)
      ensures this.file == file && set_ == {} && events == 0
    {
      this.file, set_ := file, {};
      events := 0;
    }

    /** `New`: opens the list. It is an error if the file cannot be read, does not parse or names an
        invalid package; no file is an empty list. */
    static method Open(file: FileContent, attempts: seq<bool>) returns (r: Option<Manager>)
      requires |attempts| == 3
      ensures r.Some? <==> (exists k :: 0 <= k < 3 && attempts[k]) && (file.Missing? || Parse(file).Some?)
      ensures r.Some? ==> fresh(r.value) && r.value.file == file && Init(r.value.Protocol())
    {
      var m := new Manager(file);
      var status := m.Load(attempts);
      r := if status.Loaded? || status.NoFile? then Some(m) else None;
    }

    /** This object in the interleaving model, with the lock free and the reader idle. */
    ghost function Protocol(): State
      reads this
    {
      State(set_, file, Free, Idle, events, false)
    }

    /** Memory and file say the same. */
    ghost predicate InSync()
      reads this
    {
      set_ == FileSet(file) && (file.Listing? ==> Parse(file).Some?) && !file.Garbled?
    }

    method List() returns (names: seq<string>)
      ensures StrictlySorted(names) && forall n :: n in names <==> n in set_
    {
      names := Sorting.SortedKeys(set_);
    }

    method Flush(io: FlushIo) returns (ok: bool)
      modifies this`file, this`events
      ensures ok <==> io.Works?
      ensures !ok ==> file == old(file) && events == old(events)
      ensures ok ==> events == old(events) + 1 && file.Listing? && StrictlySorted(file.names)
      ensures ok ==> forall n :: n in file.names <==> n in set_
    {
      var names := List();
      ok := io.Works?;
      if ok {
        file := Listing(names);
        events := events + 1;
      }
    }

    /** A run of the interleaving model: take the lock, then flush or undo. */
    ghost predicate RanAs(before: State, op: Op, ok: bool)
      reads this
    {
      && Enabled(before, Begin(op))
      && var mid := Step(before, Begin(op));
         if ok then file.Listing? && Enabled(mid, FlushOk(file.names)) && Protocol() == Step(mid, FlushOk(file.names))
         else Enabled(mid, FlushFail) && Protocol() == Step(mid, FlushFail)
    }

    method Add(name: string, io: FlushIo) returns (r: Status)
      modifies this
      ensures r.InvalidName? <==> !ValidPackageName(name)
      ensures r.AlreadyTracked? <==> ValidPackageName(name) && name in old(set_)
      ensures r.Done? ==> set_ == old(set_) + {name} && RanAs(old(Protocol()), Op.Add(name), true)
      ensures r.FlushFailed? ==> RanAs(old(Protocol()), Op.Add(name), false)
      ensures !r.Done? ==> set_ == old(set_) && file == old(file) && events == old(events)
      ensures r.Done? || r.FlushFailed? ==> (r.Done? <==> io.Works?)
      ensures AllValid(old(set_)) ==> AllValid(set_)
      ensures AllValid(old(set_)) && old(InSync()) ==> InSync()
    {
      if !ValidPackageName(name) {
        return InvalidName;
      }
      if name in set_ {
        return AlreadyTracked;
      }
      set_ := set_ + {name};
      var ok := Flush(io);
      if !ok {
        set_ := set_ - {name};
        return FlushFailed;
      }
      FileSetOfFlushed(file, set_);
      return Done;
    }

    method Remove(name: string, io: FlushIo) returns (r: Status)
      modifies this
      ensures r.NotTracked? <==> name !in old(set_)
      ensures r.Done? ==> set_ == old(set_) - {name} && RanAs(old(Protocol()), Op.Remove(name), true)
      ensures r.FlushFailed? ==> RanAs(old(Protocol()), Op.Remove(name), false)
      ensures !r.Done? ==> set_ == old(set_) && file == old(file) && events == old(events)
      ensures name in old(set_) ==> (r.Done? <==> io.Works?)
      ensures AllValid(old(set_)) ==> AllValid(set_)
      ensures AllValid(old(set_)) && old(InSync()) ==> InSync()
    {
      if name !in set_ {
        return NotTracked;
      }
      set_ := set_ - {name};
      var ok := Flush(io);
      if !ok {
        set_ := set_ + {name};
        return FlushFailed;
      }
      FileSetOfFlushed(file, set_);
      return Done;
    }

    /** The insertion loop of `Seed`: stops at the first invalid name, keeping what it has inserted. */
    method Insert(names: seq<string>) returns (valid: bool, added: seq<string>)
      modifies this`set_
      ensures valid <==> forall n :: n in names ==> ValidPackageName(n)
      ensures var k := FirstInvalid(names);
        set_ == old(set_) + (set n | n in names[..k]) && forall n :: n in added <==> n in names[..k] && n !in old(set_)
    {
      added := [];
      var i := 0;
      while i < |names|
        invariant 0 <= i <= |names|
        invariant forall n :: n in names[..i] ==> ValidPackageName(n)
        invariant forall n :: n in set_ <==> n in old(set_) || n in names[..i]
        invariant forall n :: n in added <==> n in names[..i] && n !in old(set_)
      {
        var name := names[i];
        assert names[..i + 1] == names[..i] + [name];
        if !ValidPackageName(name) {
          FirstInvalidIs(names, i);
          assert name in names;
          return false, added;
        }
        if name !in set_ {
          set_ := set_ + {name};
          added := added + [name];
        }
        i := i + 1;
      }
      assert names[..|names|] == names;
      FirstInvalidAll(names);
      valid := true;
    }

    method Delete(names: seq<string>)
      modifies this`set_
      ensures set_ == old(set_) - (set n | n in names)
    {
      for k := 0 to |names|
        invariant set_ == old(set_) - (set n | n in names[..k])
      {
        assert names[..k + 1] == names[..k] + [names[k]];
        set_ := set_ - {names[k]};
      }
      assert names[..|names|] == names;
    }

    /** Adds the names not present. An invalid name returns at once and leaves the earlier insertions
        in memory, unflushed; a failed flush restores the exact prior set. */
    method Seed(names: seq<string>, io: FlushIo) returns (r: Status)
      modifies this
      ensures r.InvalidName? <==> FirstInvalid(names) < |names|
      ensures r.InvalidName? ==> set_ == old(set_) + (set n | n in names[..FirstInvalid(names)]) && file == old(file)
      ensures r.Done? ==> set_ == old(set_) + (set n | n in names)
      ensures r.FlushFailed? ==> set_ == old(set_) && file == old(file)
      ensures !r.InvalidName? && New(old(set_), Op.Seed(names)) != {} ==>
        (r.Done? <==> io.Works?) && (r.FlushFailed? <==> !io.Works?) && RanAs(old(Protocol()), Op.Seed(names), r.Done?)
      ensures !r.InvalidName? && New(old(set_), Op.Seed(names)) == {} ==>
        r.Done? && file == old(file) && events == old(events)
      ensures AllValid(old(set_)) ==> AllValid(set_)
      ensures AllValid(old(set_)) && old(InSync()) ==>
        (InSync() <==> FirstInvalid(names) == |names| || New(old(set_), Op.Seed(names[..FirstInvalid(names)])) == {})
    {
      ghost var before := set_;
      FirstInvalidAll(names);
      var valid, added := Insert(names);
      if !valid {
        ghost var prefix := set n | n in names[..FirstInvalid(names)];
        NothingNew(before, prefix);
        return InvalidName;
      }
      assert names[..|names|] == names;
      assert forall n :: n in added <==> n in New(before, Op.Seed(names));
      if |added| == 0 {
        assert set_ == before;
        return Done;
      }
      assert added[0] in added;
      var ok := Flush(io);
      if !ok {
        Delete(added);
        assert set_ == before;
        return FlushFailed;
      }
      FileSetOfFlushed(file, set_);
      return Done;
    }

    /** The read half of `load`, done without the lock: up to three attempts. */
    method ReadFile(attempts: seq<bool>) returns (r: LoadStatus, names: set<string>)
      requires |attempts| == 3
      ensures r.Loaded? ==> Parse(file) == Some(names)
      ensures r.NoFile? || r.Rejected? ==> Parse(file).None?
      ensures r.NoFile? ==> file.Missing?
      ensures r.ReadFailed? <==> forall k :: 0 <= k < 3 ==> !attempts[k]
      ensures r.Rejected? ==> !file.Missing?
      ensures r.Loaded? <==> (exists k :: 0 <= k < 3 && attempts[k])
                             && file.Listing? && forall n :: n in file.names ==> ValidPackageName(n)
      ensures r.Loaded? ==> names == set n | n in file.names
    {
      names := {};
      var i, ok := 0, false;
      while i < 3 && !ok
        invariant 0 <= i <= 3
        invariant ok <==> exists k :: 0 <= k < i && attempts[k]
      {
        ok := attempts[i];
        i := i + 1;
      }
      if !ok {
        return ReadFailed, {};
      }
      match file {
        case Missing => return NoFile, {};
        case Garbled => return Rejected, {};
        case Listing(list) =>
          for k := 0 to |list|
            invariant names == (set n | n in list[..k])
            invariant forall n :: n in list[..k] ==> ValidPackageName(n)
          {
            if !ValidPackageName(list[k]) {
              assert list[k] in list;
              return Rejected, {};
            }
            names := names + {list[k]};
          }
          assert list[..|list|] == list;
          return Loaded, names;
      }
    }

    /** `load` with nothing in between: the set becomes what the file parses to, or stays. */
    method Load(attempts: seq<bool>) returns (r: LoadStatus)
      requires |attempts| == 3
      modifies this`set_
      ensures r.Loaded? ==> Parse(file) == Some(set_)
      ensures !r.Loaded? ==> set_ == old(set_)
      ensures r.ReadFailed? <==> forall k :: 0 <= k < 3 ==> !attempts[k]
      ensures r.NoFile? ==> file.Missing?
      ensures r.Rejected? ==> !file.Missing? && Parse(file).None?
      ensures !r.ReadFailed? ==> Agrees(set_, file)
    {
      var names;
      r, names := ReadFile(attempts);
      if r.Loaded? {
        set_ := names;
      }
    }
  }

  lemma NothingNew(mem: set<string>, names: set<string>)
    ensures mem + names == mem <==> names - mem == {}
  {
    assert names - mem == {} ==> forall n :: n in names ==> n !in names - mem;
    assert mem + names == mem ==> forall n :: n in names ==> n in mem + names;
  }

  /** Index of the first name `Seed` rejects. */
  function FirstInvalid(names: seq<string>): (k: nat)
    ensures k <= |names|
    ensures forall n :: n in names[..k] ==> ValidPackageName(n)
    ensures k < |names| ==> !ValidPackageName(names[k])
  {
    if names == [] || !ValidPackageName(names[0]) then 0
    else
      var k := 1 + FirstInvalid(names[1..]);
      assert names[..k] == [names[0]] + names[1..][..k - 1];
      k
  }

  lemma {:induction false} FirstInvalidIs(names: seq<string>, i: nat)
    requires i < |names| && !ValidPackageName(names[i])
    requires forall n :: n in names[..i] ==> ValidPackageName(n)
    ensures FirstInvalid(names) == i
  {
    if i == 0 {
    } else {
      assert names[..i] == [names[0]] + names[1..][..i - 1];
      FirstInvalidIs(names[1..], i - 1);
    }
  }

  lemma FirstInvalidAll(names: seq<string>)
    ensures FirstInvalid(names) == |names| <==> forall n :: n in names ==> ValidPackageName(n)
  {
    var k := FirstInvalid(names);
    assert k == |names| ==> names[..k] == names;
    assert k < |names| ==> names[k] in names;
  }

  /** Loading what a flush wrote gives the same set back. */
  lemma FileSetOfFlushed(file: FileContent, mem: set<string>)
    requires file.Listing? && forall n :: n in file.names <==> n in mem
    ensures AllValid(mem) ==> Parse(file) == Some(mem) && FileSet(file) == mem
  {
    if AllValid(mem) {
      assert (set n | n in file.names) == mem;
    }
  }
}
