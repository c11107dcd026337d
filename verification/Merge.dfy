/** Merging what several devices list into one collection, first writer wins: the pure meaning of the
    nested pull loops (extractor/extractor.go:61-173). */
module Merge {
  import opened Text
  import opened Names

  newtype Byte = x: int | 0 <= x < 256
  type Bytes = seq<Byte>

  /** What one `adb pull` does: fails, or exits cleanly having written a file or none. `statOk` is
      whether the size can be read afterwards; the code skips the size check when it cannot. */
  datatype Pulled = Failed | Wrote(file: Option<Bytes>, statOk: bool)

  /** A device's answers during one extraction. Each question is put at most once. */
  datatype Device = Device(serial: string, abi: string, online: bool, listing: Option<seq<string>>,
                           dirOk: bool, files: map<string, Pulled>)
  {
    function Pull(path: string): Pulled {
      if path in files then files[path] else Failed
    }
  }

  /** The size ceiling, the pinned certificate ("" for none), and what apksigner says. */
  datatype Policy = Policy(maxBytes: nat, cert: string, signedBy: (Bytes, string) -> bool)

  predicate TooLarge(p: Pulled, policy: Policy) {
    p.Wrote? && p.statOk && p.file.Some? && |p.file.value| > policy.maxBytes
  }

  predicate Signed(p: Pulled, policy: Policy) {
    policy.cert == "" || (p.Wrote? && p.file.Some? && policy.signedBy(p.file.value, policy.cert))
  }

  predicate Acceptable(p: Pulled, policy: Policy) {
    p.Wrote? && !TooLarge(p, policy) && Signed(p, policy)
  }

  datatype Offer = NoDir | Offer(name: Option<string>, pulled: Pulled)

  function OfferOf(d: Device, path: string): Offer {
    Offer(SafeFilename(path), d.Pull(path))
  }

  function Listed(d: Device): seq<string> {
    if d.online && d.listing.Some? then d.listing.value else []
  }

  function OffersOf(d: Device): seq<Offer> {
    if !d.online || d.listing.None? then []
    else if !d.dirOk then [NoDir]
    else seq(|Listed(d)|, i requires 0 <= i < |Listed(d)| => OfferOf(d, Listed(d)[i]))
  }

  function Offers(devices: seq<Device>): seq<Offer> {
    if devices == [] then [] else OffersOf(devices[0]) + Offers(devices[1..])
  }

  /** Contents by name; a name can be collected without a file when a pull wrote none. */
  type Collection = map<string, Option<Bytes>>

  /** One pull after another, aborting at the first failure. */
  function MergeOffers(acc: Collection, offers: seq<Offer>, policy: Policy): Option<Collection>
    decreases |offers|
  {
    if offers == [] then Some(acc)
    else
      var o := offers[0];
      if o.NoDir? || o.name.None? then None
      else if o.name.value in acc then MergeOffers(acc, offers[1..], policy)
      else if !Acceptable(o.pulled, policy) then None
      else MergeOffers(acc[o.name.value := o.pulled.file], offers[1..], policy)
  }

  function Merged(devices: seq<Device>, policy: Policy): Option<Collection> {
    MergeOffers(map[], Offers(devices), policy)
  }

  predicate IsSplit(devices: seq<Device>) {
    exists i :: 0 <= i < |devices| && |Listed(devices[i])| > 1
  }

  lemma {:induction false} MergeConcat(acc: Collection, a: seq<Offer>, b: seq<Offer>, policy: Policy)
    ensures var r := MergeOffers(acc, a, policy);
      MergeOffers(acc, a + b, policy) == if r.None? then None else MergeOffers(r.value, b, policy)
    decreases |a|
  {
    if a == [] {
      assert a + b == b;
    } else {
      assert (a + b)[1..] == a[1..] + b;
      MergeConcat(acc, a[1..], b, policy);
      if a[0].Offer? && a[0].name.Some? && a[0].pulled.Wrote? {
        MergeConcat(acc[a[0].name.value := a[0].pulled.file], a[1..], b, policy);
      }
    }
  }

  /** `offers[i]` is the first to bring its name. */
  predicate First(acc: Collection, offers: seq<Offer>, i: nat)
    requires i < |offers|
  {
    && offers[i].Offer? && offers[i].name.Some? && offers[i].name.value !in acc
    && forall j :: 0 <= j < i && offers[j].Offer? ==> offers[j].name != offers[i].name
  }

  predicate Fine(acc: Collection, offers: seq<Offer>, i: nat, policy: Policy)
    requires i < |offers|
  {
    && offers[i].Offer? && offers[i].name.Some?
    && (First(acc, offers, i) ==> Acceptable(offers[i].pulled, policy))
  }

  /** The merge succeeds exactly when every listed path has a safe name and every first offer of a
      name is pulled, within the limit, and signed. It then holds exactly the offered names, each
      with the content of its first offer, and keeps what was there before. */
  lemma {:induction false} MergeMeaning(acc: Collection, offers: seq<Offer>, policy: Policy)
    ensures var r := MergeOffers(acc, offers, policy);
      && (r.Some? <==> forall i :: 0 <= i < |offers| ==> Fine(acc, offers, i, policy))
      && (r.Some? ==>
            && (forall n :: n in acc ==> n in r.value && r.value[n] == acc[n])
            && (forall i :: 0 <= i < |offers| && First(acc, offers, i) ==>
                  offers[i].name.value in r.value && offers[i].pulled.Wrote?
                  && r.value[offers[i].name.value] == offers[i].pulled.file)
            && (forall n :: n in r.value && n !in acc ==>
                  exists i :: 0 <= i < |offers| && First(acc, offers, i) && offers[i].name == Some(n)))
    decreases |offers|
  {
    if offers == [] { return; }
    var o, rest := offers[0], offers[1..];
    var r := MergeOffers(acc, offers, policy);
    assert o.NoDir? || o.name.None? ==> !Fine(acc, offers, 0, policy);
    if o.NoDir? || o.name.None? { return; }
    var name := o.name.value;
    assert First(acc, offers, 0) <==> name !in acc;
    if name !in acc && !Acceptable(o.pulled, policy) {
      assert !Fine(acc, offers, 0, policy);
      return;
    }
    var next := if name in acc then acc else acc[name := o.pulled.file];
    MergeMeaning(next, rest, policy);
    forall i | 1 <= i < |offers|
      ensures First(acc, offers, i) <==> First(next, rest, i - 1)
      ensures Fine(acc, offers, i, policy) <==> Fine(next, rest, i - 1, policy)
    {
      assert offers[i] == rest[i - 1];
      FirstShift(acc, offers, next, i);
    }
    assert Fine(acc, offers, 0, policy);
    if r.Some? {
      forall i | 0 <= i < |rest| && Fine(next, rest, i, policy) ensures Fine(acc, offers, i + 1, policy) {}
      forall n | n in r.value && n !in acc
        ensures exists i :: 0 <= i < |offers| && First(acc, offers, i) && offers[i].name == Some(n)
      {
        if n == name {
          assert First(acc, offers, 0);
        } else {
          var i :| 0 <= i < |rest| && First(next, rest, i) && rest[i].name == Some(n);
          assert First(acc, offers, i + 1) && offers[i + 1].name == Some(n);
        }
      }
    } else {
      var i :| 0 <= i < |rest| && !Fine(next, rest, i, policy);
      assert !Fine(acc, offers, i + 1, policy);
    }
  }

  lemma FirstShift(acc: Collection, offers: seq<Offer>, next: Collection, i: nat)
    requires 1 <= i < |offers| && offers[0].Offer? && offers[0].name.Some?
    requires next.Keys == acc.Keys + {offers[0].name.value}
    ensures First(acc, offers, i) <==> First(next, offers[1..], i - 1)
  {
    var rest := offers[1..];
    if First(next, rest, i - 1) {
      forall j | 0 <= j < i && offers[j].Offer? ensures offers[j].name != offers[i].name {
        if j > 0 { assert offers[j] == rest[j - 1]; }
      }
    }
    if First(acc, offers, i) {
      forall j | 0 <= j < i - 1 && rest[j].Offer? ensures rest[j].name != rest[i - 1].name {
        assert rest[j] == offers[j + 1];
      }
    }
  }

  lemma {:induction false} OffersConcat(a: seq<Device>, b: seq<Device>)
    ensures Offers(a + b) == Offers(a) + Offers(b)
  {
    if a == [] {
      assert a + b == b;
    } else {
      assert (a + b)[1..] == a[1..] + b;
      OffersConcat(a[1..], b);
    }
  }

  /** Offer `i` is device `k`'s answer for `path`, and lies after everything earlier devices offer. */
  predicate ComesFrom(devices: seq<Device>, i: nat, k: nat, path: string)
    requires i < |Offers(devices)|
  {
    && k < |devices| && path in Listed(devices[k])
    && Offers(devices)[i] == OfferOf(devices[k], path)
    && |Offers(devices[..k])| <= i
  }

  lemma OffersStep(devices: seq<Device>, n: nat)
    requires n < |devices|
    ensures Offers(devices[..n + 1]) == Offers(devices[..n]) + OffersOf(devices[n])
  {
    var last := [devices[n]];
    assert devices[..n + 1] == devices[..n] + last;
    OffersConcat(devices[..n], last);
    assert Offers(last) == OffersOf(devices[n]) + Offers(last[1..]);
  }

  lemma OwnOffer(d: Device, i: nat) returns (path: string)
    requires i < |OffersOf(d)| && OffersOf(d)[i].Offer?
    ensures path in Listed(d) && OffersOf(d)[i] == OfferOf(d, path)
  {
    path := Listed(d)[i];
  }

  lemma OffersPrefix(devices: seq<Device>, k: nat)
    requires k <= |devices|
    ensures Offers(devices[..k]) <= Offers(devices)
  {
    OffersConcat(devices[..k], devices[k..]);
    assert devices[..k] + devices[k..] == devices;
  }

  /** The stretch of a partition in which `i` lies. */
  lemma {:induction false} Stretch(starts: seq<int>, i: int) returns (k: nat)
    requires |starts| > 0 && starts[0] <= i < starts[|starts| - 1]
    ensures k + 1 < |starts| && starts[k] <= i < starts[k + 1]
  {
    k := |starts| - 2;
    if i < starts[k] {
      k := Stretch(starts[..k + 1], i);
    }
  }

  lemma OfferAt(devices: seq<Device>, k: nat, i: nat) returns (path: string)
    requires k < |devices| && |Offers(devices[..k])| <= i < |Offers(devices[..k + 1])|
    requires i < |Offers(devices)| && Offers(devices)[i].Offer?
    ensures ComesFrom(devices, i, k, path)
  {
    OffersStep(devices, k);
    OffersPrefix(devices, k + 1);
    var j := i - |Offers(devices[..k])|;
    assert Offers(devices)[i] == OffersOf(devices[k])[j];
    path := OwnOffer(devices[k], j);
  }

  lemma OfferOrigin(devices: seq<Device>, i: nat) returns (k: nat, path: string)
    requires i < |Offers(devices)| && Offers(devices)[i].Offer?
    ensures ComesFrom(devices, i, k, path)
  {
    assert devices[..|devices|] == devices && devices[..0] == [];
    var starts := seq(|devices| + 1, n requires 0 <= n <= |devices| => |Offers(devices[..n])|);
    k := Stretch(starts, i);
    assert starts[k + 1] == |Offers(devices[..k + 1])|;
    path := OfferAt(devices, k, i);
  }

  /** Conversely every path listed by such a device is offered. */
  lemma {:induction false} ListedIsOffered(devices: seq<Device>, k: nat, path: string)
    requires k < |devices| && devices[k].dirOk && path in Listed(devices[k])
    ensures OfferOf(devices[k], path) in Offers(devices)
    decreases |devices|
  {
    if k == 0 {
      var i :| 0 <= i < |Listed(devices[0])| && Listed(devices[0])[i] == path;
      assert OffersOf(devices[0])[i] == OfferOf(devices[0], path);
    } else {
      ListedIsOffered(devices[1..], k - 1, path);
    }
  }

  lemma {:induction false} DirMissing(devices: seq<Device>, k: nat)
    requires k < |devices| && devices[k].online && devices[k].listing.Some? && !devices[k].dirOk
    ensures NoDir in Offers(devices)
    decreases |devices|
  {
    if k == 0 {
      assert OffersOf(devices[0])[0] == NoDir;
    } else {
      DirMissing(devices[1..], k - 1);
    }
  }

  /** Device `k` brings `content` under `name`: it lists the name, no earlier device does, and the
      pulled file passed every check. */
  predicate Brings(devices: seq<Device>, policy: Policy, k: int, path: string, name: string, content: Option<Bytes>) {
    && 0 <= k < |devices| && path in Listed(devices[k]) && SafeFilename(path) == Some(name)
    && Acceptable(devices[k].Pull(path), policy) && devices[k].Pull(path).file == content
    && forall e, p :: 0 <= e < k && p in Listed(devices[e]) ==> SafeFilename(p) != Some(name)
  }

  /** The collection in terms of the devices: exactly the safe names listed by the devices that were
      online and answered, each with what the first of them to list it brought. */
  lemma MergedNames(devices: seq<Device>, policy: Policy)
    requires Merged(devices, policy).Some?
    ensures forall k, path :: 0 <= k < |devices| && path in Listed(devices[k]) ==>
      SafeFilename(path).Some? && SafeFilename(path).value in Merged(devices, policy).value
    ensures forall n :: n in Merged(devices, policy).value ==>
      exists k, path :: Brings(devices, policy, k, path, n, Merged(devices, policy).value[n])
  {
    var r := Merged(devices, policy).value;
    forall k, path | 0 <= k < |devices| && path in Listed(devices[k])
      ensures SafeFilename(path).Some? && SafeFilename(path).value in r
    {
      ListedIsMerged(devices, policy, k, path);
    }
    forall n | n in r ensures exists k, path :: Brings(devices, policy, k, path, n, r[n]) {
      var k, path := MergedOrigin(devices, policy, n);
    }
  }

  lemma DirsMade(devices: seq<Device>, policy: Policy)
    requires Merged(devices, policy).Some?
    ensures NoDir !in Offers(devices)
  {
    var offers := Offers(devices);
    MergeMeaning(map[], offers, policy);
    forall o | o in offers ensures o != NoDir {
      var i :| 0 <= i < |offers| && offers[i] == o;
      assert Fine(map[], offers, i, policy);
    }
  }

  lemma ListedIsMerged(devices: seq<Device>, policy: Policy, k: nat, path: string)
    requires Merged(devices, policy).Some? && k < |devices| && path in Listed(devices[k])
    ensures SafeFilename(path).Some? && SafeFilename(path).value in Merged(devices, policy).value
  {
    var offers := Offers(devices);
    MergeMeaning(map[], offers, policy);
    DirsMade(devices, policy);
    if !devices[k].dirOk { DirMissing(devices, k); }
    ListedIsOffered(devices, k, path);
    var i :| 0 <= i < |offers| && offers[i] == OfferOf(devices[k], path);
    assert Fine(map[], offers, i, policy);
    OfferedIsCollected(offers, i);
  }

  lemma MergedOrigin(devices: seq<Device>, policy: Policy, n: string) returns (k: nat, path: string)
    requires Merged(devices, policy).Some? && n in Merged(devices, policy).value
    ensures Brings(devices, policy, k, path, n, Merged(devices, policy).value[n])
  {
    var offers := Offers(devices);
    MergeMeaning(map[], offers, policy);
    var i :| 0 <= i < |offers| && First(map[], offers, i) && offers[i].name == Some(n);
    assert Fine(map[], offers, i, policy);
    k, path := OfferOrigin(devices, i);
    DirsMade(devices, policy);
    NotEarlier(devices, i, k, path);
  }

  lemma NotEarlier(devices: seq<Device>, i: nat, k: nat, path: string)
    requires i < |Offers(devices)| && ComesFrom(devices, i, k, path)
    requires First(map[], Offers(devices), i) && NoDir !in Offers(devices)
    ensures forall e, p :: 0 <= e < k && p in Listed(devices[e]) ==> SafeFilename(p) != SafeFilename(path)
  {
    forall e, p | 0 <= e < k && p in Listed(devices[e]) ensures SafeFilename(p) != SafeFilename(path) {
      var j := EarlierOffer(devices, k, e, p);
      assert Offers(devices)[j].name == SafeFilename(p);
    }
  }

  lemma EarlierOffer(devices: seq<Device>, k: nat, e: nat, p: string) returns (j: nat)
    requires e < k <= |devices| && p in Listed(devices[e]) && NoDir !in Offers(devices)
    ensures j < |Offers(devices[..k])| <= |Offers(devices)| && Offers(devices)[j] == OfferOf(devices[e], p)
  {
    if !devices[e].dirOk { DirMissing(devices, e); }
    OffersPrefix(devices, k);
    ListedIsOffered(devices[..k], e, p);
    j :| 0 <= j < |Offers(devices[..k])| && Offers(devices[..k])[j] == OfferOf(devices[e], p);
  }

  lemma {:induction false} OfferedIsCollected(offers: seq<Offer>, i: nat)
    requires i < |offers| && offers[i].Offer? && offers[i].name.Some?
    ensures exists j :: 0 <= j < |offers| && First(map[], offers, j) && offers[j].name == offers[i].name
    decreases i
  {
    if !First(map[], offers, i) {
      var j :| 0 <= j < i && offers[j].Offer? && offers[j].name == offers[i].name;
      OfferedIsCollected(offers, j);
    }
  }
}
