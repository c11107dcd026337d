/** A package directory, and which version files pruning keeps (extractor/extractor.go:392-438). */
module Files {
  import opened Text
  import opened Names
  import opened Bundle

  /** `Torn` is a file cut off in the middle of a plain write. `Digest` stands for the checksum text
      of the given content. */
  datatype Content = Torn | Whole(payload: Payload) | Digest(of: Content)
                   | LatestDoc(code: int, name: string, file: FileName) | SubDir

  type Dir = map<FileName, Content>

  function CodeOf(name: FileName): int {
    name.Version().GetOr(0)
  }

  function VersionFiles(dir: Dir): set<FileName> {
    set n | n in dir && !dir[n].SubDir? && n.Version().Some?
  }

  /** Any outcome of the unstable descending sort. */
  ghost predicate IsOrder(order: seq<FileName>, files: set<FileName>) {
    && Distinct(order)
    && (forall n :: n in order <==> n in files)
    && (forall i, j :: 0 <= i < j < |order| ==> CodeOf(order[i]) >= CodeOf(order[j]))
  }

  function Without(dir: Dir, names: seq<FileName>): Dir {
    map n | n in dir && n !in names && !IsSidecarOf(n, names) :: dir[n]
  }

  predicate IsSidecarOf(n: FileName, names: seq<FileName>) {
    exists f :: f in names && n == Sidecar(f)
  }

  /** What pruning to `keep` files may leave, when every removal succeeds. */
  ghost predicate Pruned(dir: Dir, keep: nat, after: Dir) {
    if |VersionFiles(dir)| <= keep then after == dir
    else exists order :: IsOrder(order, VersionFiles(dir)) && PrunedBy(dir, keep, order, after)
  }

  ghost predicate PrunedBy(dir: Dir, keep: nat, order: seq<FileName>, after: Dir) {
    keep <= |order| && after == Without(dir, order[keep..])
  }

  ghost function Elems(names: seq<FileName>): set<FileName> {
    set n | n in names
  }

  lemma {:induction false} SetSize(names: seq<FileName>)
    requires Distinct(names)
    ensures |Elems(names)| == |names|
  {
    if names == [] {
    } else {
      var front, last := names[..|names| - 1], names[|names| - 1];
      SetSize(front);
      assert names == front + [last];
      assert Elems(names) == Elems(front) + {last};
      assert last !in front;
    }
  }

  lemma OrderSize(order: seq<FileName>, files: set<FileName>)
    requires IsOrder(order, files)
    ensures |order| == |files|
  {
    SetSize(order);
    assert Elems(order) == files;
  }

  lemma SidecarUnversioned(n: FileName, names: seq<FileName>)
    requires IsSidecarOf(n, names)
    ensures n.Version().None?
  {
  }

  /** Cutting an order in two splits its members. */
  lemma SplitOrder(order: seq<FileName>, files: set<FileName>, keep: nat)
    requires IsOrder(order, files) && keep <= |order|
    ensures files == Elems(order[..keep]) + Elems(order[keep..])
    ensures Elems(order[..keep]) * Elems(order[keep..]) == {}
    ensures |Elems(order[..keep])| == keep
    ensures forall k, r :: k in order[..keep] && r in order[keep..] ==> CodeOf(r) <= CodeOf(k)
  {
    var a, b := order[..keep], order[keep..];
    assert order == a + b;
    SetSize(a);
    forall k, r | k in a && r in b ensures k != r && CodeOf(r) <= CodeOf(k) {
      var i :| 0 <= i < |a| && a[i] == k;
      var j :| 0 <= j < |b| && b[j] == r;
      assert order[i] == k && order[keep + j] == r;
    }
  }

  lemma KeptFiles(dir: Dir, keep: nat, order: seq<FileName>, after: Dir)
    requires IsOrder(order, VersionFiles(dir)) && PrunedBy(dir, keep, order, after)
    ensures VersionFiles(after) == Elems(order[..keep])
  {
    var gone := order[keep..];
    SplitOrder(order, VersionFiles(dir), keep);
    forall n ensures n in VersionFiles(after) <==> n in Elems(order[..keep]) {
      if n in VersionFiles(dir) {
        if IsSidecarOf(n, gone) { SidecarUnversioned(n, gone); }
        assert n in gone <==> n in Elems(gone);
      }
    }
  }

  /** Nothing but version files and the checksums of removed ones disappears. */
  lemma UntouchedFiles(dir: Dir, keep: nat, order: seq<FileName>, after: Dir)
    requires IsOrder(order, VersionFiles(dir)) && PrunedBy(dir, keep, order, after)
    ensures forall n :: n in after ==> n in dir && after[n] == dir[n]
    ensures forall n :: n in dir && n !in after ==>
      exists r :: r in VersionFiles(dir) - VersionFiles(after) && (n == r || n == Sidecar(r))
    ensures forall r :: r in VersionFiles(dir) - VersionFiles(after) ==> Sidecar(r) !in after
  {
    var gone := order[keep..];
    KeptFiles(dir, keep, order, after);
    SplitOrder(order, VersionFiles(dir), keep);
    assert forall r :: r in VersionFiles(dir) - VersionFiles(after) <==> r in Elems(gone);
    assert forall r :: r in Elems(gone) <==> r in gone;
    forall r | r in gone ensures Sidecar(r) !in after {
      assert IsSidecarOf(Sidecar(r), gone);
    }
  }

  /** Pruning keeps the newest `keep` version files and nothing else changes: exactly that many remain,
      none of them older than a removed one; a removed file takes its checksum with it; every other
      name stays as it was. */
  lemma PruneMeaning(dir: Dir, keep: nat, after: Dir)
    requires Pruned(dir, keep, after)
    ensures |VersionFiles(after)| == if |VersionFiles(dir)| <= keep then |VersionFiles(dir)| else keep
    ensures VersionFiles(after) <= VersionFiles(dir)
    ensures forall k, r :: k in VersionFiles(after) && r in VersionFiles(dir) - VersionFiles(after) ==>
      CodeOf(r) <= CodeOf(k)
    ensures forall r :: r in VersionFiles(dir) - VersionFiles(after) ==> Sidecar(r) !in after
    ensures forall n :: n in after ==> n in dir && after[n] == dir[n]
    ensures forall n :: n in dir && n !in after ==>
      exists r :: r in VersionFiles(dir) - VersionFiles(after) && (n == r || n == Sidecar(r))
  {
    if |VersionFiles(dir)| > keep {
      var order :| IsOrder(order, VersionFiles(dir)) && PrunedBy(dir, keep, order, after);
      KeptFiles(dir, keep, order, after);
      UntouchedFiles(dir, keep, order, after);
      SplitOrder(order, VersionFiles(dir), keep);
    }
  }

  /** Pruning again changes nothing. */
  lemma PruneIdempotent(dir: Dir, keep: nat, after: Dir, again: Dir)
    requires Pruned(dir, keep, after) && Pruned(after, keep, again)
    ensures again == after
  {
    PruneMeaning(dir, keep, after);
  }

  ghost function AtLeast(files: set<FileName>, code: int): set<FileName> {
    set n | n in files && CodeOf(n) >= code
  }

  lemma {:induction false} Newest(files: set<FileName>) returns (m: FileName)
    requires files != {}
    ensures m in files && forall n :: n in files ==> CodeOf(n) <= CodeOf(m)
    decreases files
  {
    m :| m in files;
    if files == {m} {
    } else {
      var other := Newest(files - {m});
      if CodeOf(m) < CodeOf(other) { m := other; }
    }
  }

  lemma PickLate(files: set<FileName>, late: FileName) returns (m: FileName)
    requires files != {}
    ensures m in files && forall n :: n in files ==> CodeOf(n) <= CodeOf(m)
    ensures m == late ==> forall n :: n in files && n != late ==> CodeOf(n) < CodeOf(late)
  {
    m := Newest(files);
    if m == late && exists n :: n in files && n != late && CodeOf(n) == CodeOf(late) {
      m :| m in files && m != late && CodeOf(m) == CodeOf(late);
    }
  }

  lemma PrependNewest(m: FileName, rest: seq<FileName>, files: set<FileName>)
    requires m in files && IsOrder(rest, files - {m}) && forall n :: n in files ==> CodeOf(n) <= CodeOf(m)
    ensures IsOrder([m] + rest, files)
  {
    var order := [m] + rest;
    assert forall n :: n in order <==> n == m || n in rest;
    forall i, j | 0 <= i < j < |order| ensures CodeOf(order[i]) >= CodeOf(order[j]) && order[i] != order[j] {
      assert order[j] == rest[j - 1] && rest[j - 1] in rest;
      if i > 0 { assert order[i] == rest[i - 1]; }
    }
  }

  /** Wherever `late` stands, everything behind it is strictly older. */
  ghost predicate LastOfTies(order: seq<FileName>, late: FileName) {
    order == [] || (LastOfTies(order[1..], late) &&
      (order[0] == late ==> forall n :: n in order[1..] ==> CodeOf(n) < CodeOf(late)))
  }

  /** Some sort result puts `late` after every file with the same code. */
  lemma {:induction false} LateOrder(files: set<FileName>, late: FileName) returns (order: seq<FileName>)
    ensures IsOrder(order, files) && LastOfTies(order, late)
    decreases files
  {
    order := [];
    if files == {} {
    } else {
      var m := PickLate(files, late);
      var rest := LateOrder(files - {m}, late);
      PrependNewest(m, rest, files);
      order := [m] + rest;
      assert order[1..] == rest;
    }
  }

  lemma {:induction false} BehindLate(order: seq<FileName>, i: nat)
    requires i < |order| && LastOfTies(order, order[i])
    ensures forall n :: n in order[i + 1..] ==> CodeOf(n) < CodeOf(order[i])
  {
    if i == 0 {
    } else {
      BehindLate(order[1..], i - 1);
      assert order[1..][i..] == order[i + 1..];
    }
  }

  lemma RankBound(order: seq<FileName>, files: set<FileName>, i: nat)
    requires IsOrder(order, files) && i < |order|
    ensures i + 1 <= |AtLeast(files, CodeOf(order[i]))|
  {
    var upTo := order[..i + 1];
    SetSize(upTo);
    forall n | n in upTo ensures n in AtLeast(files, CodeOf(order[i])) {
      var j :| 0 <= j <= i && order[j] == n;
      assert order[j] in order;
    }
    SubsetSize(Elems(upTo), AtLeast(files, CodeOf(order[i])));
  }

  lemma BehindLateAt(order: seq<FileName>, i: nat, j: nat)
    requires i < j < |order| && LastOfTies(order, order[i])
    ensures CodeOf(order[j]) < CodeOf(order[i])
  {
    BehindLate(order, i);
    assert order[i + 1..][j - (i + 1)] == order[j];
  }

  lemma LateCovered(order: seq<FileName>, files: set<FileName>, i: nat)
    requires IsOrder(order, files) && i < |order|
    requires LastOfTies(order, order[i])
    ensures AtLeast(files, CodeOf(order[i])) <= Elems(order[..i + 1])
  {
    forall n | n in AtLeast(files, CodeOf(order[i])) ensures n in Elems(order[..i + 1]) {
      var j :| 0 <= j < |order| && order[j] == n;
      if j > i {
        BehindLateAt(order, i, j);
      } else {
        assert order[..i + 1][j] == n;
      }
    }
  }

  lemma LateRank(order: seq<FileName>, files: set<FileName>, i: nat)
    requires IsOrder(order, files) && i < |order|
    requires LastOfTies(order, order[i])
    ensures |AtLeast(files, CodeOf(order[i]))| <= i + 1
  {
    LateCovered(order, files, i);
    SetSize(order[..i + 1]);
    SubsetSize(AtLeast(files, CodeOf(order[i])), Elems(order[..i + 1]));
  }

  /** Enough room: a file with at most `keep` files as new as it is kept by every sort result. */
  lemma SurvivesOrder(order: seq<FileName>, files: set<FileName>, keep: nat, f: FileName)
    requires IsOrder(order, files) && f in files && keep <= |order|
    requires |AtLeast(files, CodeOf(f))| <= keep
    ensures f !in order[keep..]
  {
    if f in order[keep..] {
      var j :| 0 <= j < |order[keep..]| && order[keep..][j] == f;
      RankBound(order, files, keep + j);
    }
  }

  /** A version file outlives pruning, however ties are sorted, exactly when no more than `keep` files
      (itself included) have its code or a greater one. */
  lemma SurvivesIff(dir: Dir, keep: nat, f: FileName)
    requires f in VersionFiles(dir)
    ensures (forall after :: Pruned(dir, keep, after) ==> f in after)
       <==> |AtLeast(VersionFiles(dir), CodeOf(f))| <= keep
  {
    var files := VersionFiles(dir);
    SubsetSize(AtLeast(files, CodeOf(f)), files);
    if |AtLeast(files, CodeOf(f))| <= keep {
      forall after | Pruned(dir, keep, after) ensures f in after {
        if |files| > keep {
          var order :| IsOrder(order, files) && PrunedBy(dir, keep, order, after);
          SurvivesOrder(order, files, keep, f);
          if IsSidecarOf(f, order[keep..]) { SidecarUnversioned(f, order[keep..]); }
        }
      }
    } else {
      var order := LateOrder(files, f);
      OrderSize(order, files);
      var i :| 0 <= i < |order| && order[i] == f;
      LateRank(order, files, i);
      var after := Without(dir, order[keep..]);
      assert order[keep..][i - keep] == f;
      assert PrunedBy(dir, keep, order, after) && Pruned(dir, keep, after);
    }
  }
}
