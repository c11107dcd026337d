/** The parallel version query and the agreement rule (watcher/watcher.go:97-156). */
module Agreement {
  import opened Text
  import opened Names
  import opened Adb
  import opened Merge
  import opened Bundle

  /** One configured emulator during one check of one package: what it answers to the version query,
      what it answers during extraction, and the version code of the installation that the file at each
      path belongs to when it is pulled. */
  datatype Client = Client(connected: bool, reconnects: bool, reported: Option<VersionInfo>,
                           device: Device, codeAt: string -> int)

  /** What one goroutine stores in its slot; none stands for an error. */
  function Query(c: Client): Option<VersionInfo> {
    if !c.connected && !c.reconnects then None else c.reported
  }

  function Queries(clients: seq<Client>): (answers: seq<Option<VersionInfo>>)
    ensures |answers| == |clients|
    ensures forall i :: 0 <= i < |clients| ==>
      answers[i] == if clients[i].connected || clients[i].reconnects then clients[i].reported else None
  {
    seq(|clients|, i requires 0 <= i < |clients| => Query(clients[i]))
  }

  function Devices(clients: seq<Client>): (devices: seq<Device>)
    ensures |devices| == |clients| && forall i :: 0 <= i < |clients| ==> devices[i] == clients[i].device
  {
    seq(|clients|, i requires 0 <= i < |clients| => clients[i].device)
  }

  function Slots(n: nat): (s: set<int>)
    ensures forall i :: i in s <==> 0 <= i < n
  {
    if n == 0 then {} else Slots(n - 1) + {n - 1}
  }

  /** Each goroutine fills its own slot; the order in which they finish does not matter. */
  method QueryAll(clients: seq<Client>) returns (results: array<Option<VersionInfo>>)
    ensures fresh(results) && results[..] == Queries(clients)
  {
    results := new Option<VersionInfo>[|clients|](_ => None);
    var running := Slots(|clients|);
    while running != {}
      invariant running <= Slots(|clients|)
      invariant forall i :: 0 <= i < |clients| && i !in running ==> results[i] == Query(clients[i])
      decreases running
    {
      var i :| i in running;
      results[i] := Query(clients[i]);
      running := running - {i};
    }
    assert results[..] == Queries(clients);
  }

  function Answers(results: seq<Option<VersionInfo>>): seq<VersionInfo> {
    if results == [] then []
    else (if results[0].Some? then [results[0].value] else []) + Answers(results[1..])
  }

  predicate Unanimous(answers: seq<VersionInfo>) {
    forall a, b :: a in answers && b in answers ==> a.code == b.code
  }

  /** The version everyone who answered agrees on; the name is the first answer's. */
  function Agreed(results: seq<Option<VersionInfo>>): Option<VersionInfo> {
    var answers := Answers(results);
    if answers == [] || !Unanimous(answers) then None else Some(answers[0])
  }

  method Agree(results: seq<Option<VersionInfo>>) returns (r: Option<VersionInfo>)
    ensures r == Agreed(results)
  {
    var connected: seq<VersionInfo> := [];
    for i := 0 to |results|
      invariant Answers(results) == connected + Answers(results[i..])
    {
      assert results[i..][0] == results[i] && results[i..][1..] == results[i + 1..];
      if results[i].Some? {
        connected := connected + [results[i].value];
      }
    }
    assert results[|results|..] == [] && connected + [] == connected;
    if |connected| == 0 {
      return None;
    }
    var same := SameCode(connected);
    r := if same then Some(connected[0]) else None;
  }

  method SameCode(connected: seq<VersionInfo>) returns (same: bool)
    requires connected != []
    ensures same <==> Unanimous(connected)
  {
    var base := connected[0];
    for i := 1 to |connected|
      invariant forall k :: 0 <= k < i ==> connected[k].code == base.code
    {
      if connected[i].code != base.code {
        assert connected[i] in connected && base in connected;
        return false;
      }
    }
    return true;
  }

  lemma {:induction false} AnswersMeaning(results: seq<Option<VersionInfo>>)
    ensures forall v :: v in Answers(results) <==> Some(v) in results
  {
    if results == [] {
    } else {
      AnswersMeaning(results[1..]);
      assert results == [results[0]] + results[1..];
    }
  }

  /** Agreement means: someone answered, and everyone who answered reported that code. */
  lemma AgreedMeaning(results: seq<Option<VersionInfo>>)
    ensures Agreed(results).Some? <==>
      (exists r :: r in results && r.Some?)
      && (forall a, b :: a in results && b in results && a.Some? && b.Some? ==> a.value.code == b.value.code)
    ensures Agreed(results).Some? ==>
      Agreed(results) in results && forall r :: r in results && r.Some? ==> r.value.code == Agreed(results).value.code
  {
    var answers := Answers(results);
    AnswersMeaning(results);
    if answers != [] {
      assert Some(answers[0]) in results;
    }
    forall r | r in results && r.Some? ensures r.value in answers {}
    if Agreed(results).None? && answers != [] {
      var a, b :| a in answers && b in answers && a.code != b.code;
      assert Some(a) in results && Some(b) in results;
    }
  }

  /** The name reported is that of the first answer. */
  lemma {:induction false} AgreedIsFirst(results: seq<Option<VersionInfo>>) returns (i: int)
    requires Agreed(results).Some?
    ensures 0 <= i < |results| && results[i] == Agreed(results) && forall j :: 0 <= j < i ==> results[j].None?
  {
    if results[0].Some? {
      i := 0;
    } else {
      assert Answers(results) == Answers(results[1..]);
      i := AgreedIsFirst(results[1..]);
      i := i + 1;
    }
  }

  /** A client that is connected, or reconnects, and then reports a version. */
  predicate Heard(c: Client) {
    (c.connected || c.reconnects) && c.reported.Some?
  }

  /** Agreement in terms of the clients: one was heard, all that were report one code, and that is the answer. */
  lemma AgreedByClients(clients: seq<Client>)
    ensures Agreed(Queries(clients)).Some? <==>
      (exists k :: 0 <= k < |clients| && Heard(clients[k]))
      && forall a, b :: 0 <= a < |clients| && 0 <= b < |clients| && Heard(clients[a]) && Heard(clients[b]) ==>
           clients[a].reported.value.code == clients[b].reported.value.code
    ensures Agreed(Queries(clients)).Some? ==>
      exists k :: 0 <= k < |clients| && Heard(clients[k]) && clients[k].reported == Agreed(Queries(clients))
                  && forall j :: 0 <= j < k ==> !Heard(clients[j])
  {
    var results := Queries(clients);
    AgreedMeaning(results);
    forall k | 0 <= k < |clients| ensures results[k] in results && (Heard(clients[k]) <==> results[k].Some?) {
    }
    if Agreed(results).Some? {
      var k := AgreedIsFirst(results);
      assert Heard(clients[k]) && clients[k].reported == Agreed(results);
    } else if exists k :: 0 <= k < |clients| && Heard(clients[k]) {
      var a, b :| a in results && b in results && a.Some? && b.Some? && a.value.code != b.value.code;
      var i :| 0 <= i < |results| && results[i] == a;
      var j :| 0 <= j < |results| && results[j] == b;
      assert Heard(clients[i]) && Heard(clients[j]);
    }
  }

  /** Nothing changed on a device between its answer and the pulls: what it lists is what it reported. */
  predicate Steady(c: Client) {
    Query(c).Some? ==> forall path :: path in Listed(c.device) ==> c.codeAt(path) == Query(c).value.code
  }

  predicate AllAnswered(results: seq<Option<VersionInfo>>) {
    forall r :: r in results ==> r.Some?
  }

  /** Every file a merge would take is of this version. */
  ghost predicate Uniform(clients: seq<Client>, policy: Policy, code: int) {
    forall k, path, name, content :: Brings(Devices(clients), policy, k, path, name, content) ==>
      clients[k].codeAt(path) == code
  }

  /** With everyone answering and nothing changing, every file a merge would take is of the agreed
      version. */
  lemma BundleIsUniform(clients: seq<Client>, policy: Policy)
    requires Agreed(Queries(clients)).Some? && AllAnswered(Queries(clients))
    requires forall c :: c in clients ==> Steady(c)
    ensures Uniform(clients, policy, Agreed(Queries(clients)).value.code)
  {
    var results := Queries(clients);
    AgreedMeaning(results);
    forall k, path | 0 <= k < |clients| && path in Listed(Devices(clients)[k])
      ensures clients[k].codeAt(path) == Agreed(results).value.code
    {
      assert clients[k] in clients && results[k] in results;
    }
  }

  /** A file with this content that a client listed, that passed every check, and that is of this version. */
  ghost predicate OfVersion(clients: seq<Client>, policy: Policy, name: string, content: Option<Bytes>, code: int) {
    exists k, path :: Brings(Devices(clients), policy, k, path, name, content) && clients[k].codeAt(path) == code
  }

  lemma BundleOfOneVersion(clients: seq<Client>, policy: Policy, name: string)
    requires Agreed(Queries(clients)).Some? && AllAnswered(Queries(clients))
    requires forall c :: c in clients ==> Steady(c)
    requires Merged(Devices(clients), policy).Some? && name in Merged(Devices(clients), policy).value
    ensures OfVersion(clients, policy, name, Merged(Devices(clients), policy).value[name],
                      Agreed(Queries(clients)).value.code)
  {
    var k, path := MergedOrigin(Devices(clients), policy, name);
    BundleIsUniform(clients, policy);
  }

  /** A published payload in which every file is of one version. */
  ghost predicate OneVersion(p: Payload, clients: seq<Client>, policy: Policy, code: int) {
    match p
    case Single(bytes) => exists name :: OfVersion(clients, policy, name, Some(bytes), code)
    case Archive(entries) =>
      forall e :: e in entries && e.name != MANIFEST ==>
        e.data.Raw? && OfVersion(clients, policy, e.name, Some(e.data.bytes), code)
  }

  /** So every file of the payload made from the merge is of the agreed version. */
  lemma PayloadOfOneVersion(p: Payload, split: bool, release: Release, abis: seq<string>, clients: seq<Client>,
                            policy: Policy)
    requires Agreed(Queries(clients)).Some? && AllAnswered(Queries(clients))
    requires forall c :: c in clients ==> Steady(c)
    requires Merged(Devices(clients), policy).Some?
    requires IsPayloadOf(p, split, release, abis, Merged(Devices(clients), policy).value)
    ensures OneVersion(p, clients, policy, Agreed(Queries(clients)).value.code)
  {
    var c := Merged(Devices(clients), policy).value;
    if split {
      forall e | e in p.entries && e.name != MANIFEST
        ensures e.data.Raw? && e.name in c && c[e.name] == Some(e.data.bytes)
      {
        ArchiveEntry(p, release, abis, Present(c), e);
      }
      forall e | e in p.entries && e.name != MANIFEST
        ensures OfVersion(clients, policy, e.name, c[e.name], Agreed(Queries(clients)).value.code)
      {
        BundleOfOneVersion(clients, policy, e.name);
      }
    } else {
      var name :| name in c && c[name].Some? && p == Single(c[name].value);
      BundleOfOneVersion(clients, policy, name);
    }
  }

  /** The agreement rule alone guarantees this exactly when every client answered: extraction goes to
      all of them, and one that failed to answer may be back with another version by then. */
  lemma UniformIffAllAnswered(results: seq<Option<VersionInfo>>, policy: Policy, good: Bytes)
    requires Agreed(results).Some? && Acceptable(Wrote(Some(good), true), policy)
    ensures (forall clients :: Queries(clients) == results && (forall c :: c in clients ==> Steady(c))
               ==> Uniform(clients, policy, Agreed(results).value.code))
       <==> AllAnswered(results)
  {
    var code := Agreed(results).value.code;
    if AllAnswered(results) {
      forall clients | Queries(clients) == results && forall c :: c in clients ==> Steady(c)
        ensures Uniform(clients, policy, code)
      {
        BundleIsUniform(clients, policy);
      }
    } else {
      var r :| r in results && r.None?;
      var k :| 0 <= k < |results| && results[k] == r;
      var clients := LateComer(results, policy, good, k);
      assert !Uniform(clients, policy, code);
    }
  }

  /** Everyone else is silent during extraction, and client `k` is back with the next version. */
  lemma LateComer(results: seq<Option<VersionInfo>>, policy: Policy, good: Bytes, k: nat) returns (clients: seq<Client>)
    requires Agreed(results).Some? && Acceptable(Wrote(Some(good), true), policy)
    requires k < |results| && results[k].None?
    ensures Queries(clients) == results && forall c :: c in clients ==> Steady(c)
    ensures !Uniform(clients, policy, Agreed(results).value.code)
  {
    var code, path := Agreed(results).value.code, "base.apk";
    var back := Device("", "", true, Some([path]), true, map[path := Wrote(Some(good), true)]);
    var silent := Device("", "", false, None, true, map[]);
    clients := seq(|results|, i requires 0 <= i < |results| =>
      Client(true, true, results[i], if i == k then back else silent,
             _ => if results[i].Some? then results[i].value.code else code + 1));
    var devices := Devices(clients);
    BaseApkIsSafe(path);
    assert devices[k] == back && Listed(back) == [path] && Listed(back)[0] == path;
    assert Brings(devices, policy, k, path, path, Some(good));
  }

  lemma BaseApkIsSafe(path: string)
    requires path == "base.apk"
    ensures SafeFilename(path) == Some(path)
  {
    assert path[7] == 'k' && '/' !in path;
    LastSegmentNoSlash("", path);
    assert Base(path) == path;
    assert HasSuffix(path, ".apk") by { assert path[|path| - |".apk"|..] == ".apk"; }
    assert !HasPrefix(path, ".") by { assert path[0] == 'b' && "."[0] == '.'; }
    assert forall c :: c in path ==> IsSafeChar(c);
  }
}
