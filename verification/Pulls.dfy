/** The merge in terms of the devices alone: what has to hold for an extraction to get through its pulls, and
    what is then collected (extractor/extractor.go:61-73, 121-173). */
module Pulls {
  import opened Text
  import opened Names
  import opened Merge

  predicate Responds(d: Device) {
    d.online && d.listing.Some?
  }

  predicate InListing(devices: seq<Device>, k: int, j: int) {
    0 <= k < |devices| && Responds(devices[k]) && 0 <= j < |devices[k].listing.value|
  }

  function ListedAt(devices: seq<Device>, k: int, j: int): string
    requires InListing(devices, k, j)
  {
    devices[k].listing.value[j]
  }

  /** No path listed before, by this device or an earlier one, has the same safe name. */
  ghost predicate FirstListed(devices: seq<Device>, k: int, j: int)
    requires InListing(devices, k, j)
  {
    forall k2, j2 :: InListing(devices, k2, j2) && (k2 < k || (k2 == k && j2 < j)) ==>
      SafeFilename(ListedAt(devices, k2, j2)) != SafeFilename(ListedAt(devices, k, j))
  }

  /** Pulling this path writes this content, which is not over the limit if its size can be read, and is
      signed by the pinned certificate if there is one. */
  predicate PullsClean(d: Device, path: string, content: Option<Bytes>, policy: Policy) {
    && path in d.files && d.files[path].Wrote? && d.files[path].file == content
    && (d.files[path].statOk && content.Some? ==> |content.value| <= policy.maxBytes)
    && (policy.cert != "" ==> content.Some? && policy.signedBy(content.value, policy.cert))
  }

  /** `content` is what the first device listing `name` hands out, and passed every check. */
  ghost predicate CollectedFrom(devices: seq<Device>, name: string, content: Option<Bytes>, policy: Policy) {
    exists k, path :: Brought(devices, k, path, name, content, policy)
  }

  ghost predicate Brought(devices: seq<Device>, k: int, path: string, name: string, content: Option<Bytes>,
                          policy: Policy)
  {
    && 0 <= k < |devices| && Responds(devices[k]) && path in devices[k].listing.value
    && SafeFilename(path) == Some(name) && PullsClean(devices[k], path, content, policy)
    && forall e, j :: 0 <= e < k && InListing(devices, e, j) ==> SafeFilename(ListedAt(devices, e, j)) != Some(name)
  }

  lemma BringsBrought(devices: seq<Device>, policy: Policy, k: int, path: string, name: string, content: Option<Bytes>)
    requires Brings(devices, policy, k, path, name, content)
    ensures Brought(devices, k, path, name, content, policy)
  {
    forall e, j | 0 <= e < k && InListing(devices, e, j)
      ensures SafeFilename(ListedAt(devices, e, j)) != Some(name)
    {
      assert ListedAt(devices, e, j) in Listed(devices[e]);
    }
  }

  /** What is collected under a name passed the checks: in particular it is signed by the pinned certificate,
      and not over the limit if its size could be read. And every listed name is collected. */
  lemma CollectedMeaning(devices: seq<Device>, policy: Policy)
    requires Merged(devices, policy).Some?
    ensures forall n :: n in Merged(devices, policy).value ==>
      CollectedFrom(devices, n, Merged(devices, policy).value[n], policy)
    ensures forall k, j :: InListing(devices, k, j) ==>
      SafeFilename(ListedAt(devices, k, j)).Some?
      && SafeFilename(ListedAt(devices, k, j)).value in Merged(devices, policy).value
  {
    var c := Merged(devices, policy).value;
    forall n | n in c ensures CollectedFrom(devices, n, c[n], policy) {
      var k, path := MergedOrigin(devices, policy, n);
      BringsBrought(devices, policy, k, path, n, c[n]);
    }
    forall k, j | InListing(devices, k, j)
      ensures SafeFilename(ListedAt(devices, k, j)).Some? && SafeFilename(ListedAt(devices, k, j)).value in c
    {
      assert ListedAt(devices, k, j) in Listed(devices[k]);
      ListedIsMerged(devices, policy, k, ListedAt(devices, k, j));
    }
  }

  /** With a certificate pinned, everything that is collected is signed by it. */
  lemma CollectedSigned(devices: seq<Device>, policy: Policy, n: string)
    requires Merged(devices, policy).Some? && n in Merged(devices, policy).value && policy.cert != ""
    ensures var content := Merged(devices, policy).value[n];
      content.Some? && policy.signedBy(content.value, policy.cert)
  {
    CollectedMeaning(devices, policy);
    assert CollectedFrom(devices, n, Merged(devices, policy).value[n], policy);
  }

  predicate AllDirs(devices: seq<Device>) {
    forall k :: 0 <= k < |devices| && Responds(devices[k]) ==> devices[k].dirOk
  }

  /** Which place of which listing each offer comes from: every place of the first `n` devices, in order. */
  ghost predicate IsTable(devices: seq<Device>, n: int, offers: seq<Offer>, table: seq<(int, int)>) {
    AllTold(devices, n, offers, table) && InOrder(table) && Complete(devices, n, table)
  }

  ghost predicate AllTold(devices: seq<Device>, n: int, offers: seq<Offer>, table: seq<(int, int)>) {
    && |table| == |offers|
    && forall i :: 0 <= i < |table| ==> table[i].0 < n && Tells(devices, table[i].0, table[i].1, offers[i])
  }

  ghost predicate InOrder(table: seq<(int, int)>) {
    forall i, i2 :: 0 <= i2 < i < |table| ==> Before(table[i2], table[i])
  }

  ghost predicate Complete(devices: seq<Device>, n: int, table: seq<(int, int)>) {
    forall k, j :: k < n && InListing(devices, k, j) ==> (k, j) in table
  }

  predicate Tells(devices: seq<Device>, k: int, j: int, o: Offer) {
    InListing(devices, k, j) && o == OfferOf(devices[k], ListedAt(devices, k, j))
  }

  predicate Before(a: (int, int), b: (int, int)) {
    a.0 < b.0 || (a.0 == b.0 && a.1 < b.1)
  }

  function OwnPlaces(n: int, count: nat): seq<(int, int)> {
    seq(count, j => (n, j))
  }

  lemma OwnTold(devices: seq<Device>, n: int)
    requires 0 <= n < |devices| && (Responds(devices[n]) ==> devices[n].dirOk)
    ensures forall j :: InListing(devices, n, j) <==> 0 <= j < |OffersOf(devices[n])|
    ensures forall j :: 0 <= j < |OffersOf(devices[n])| ==> Tells(devices, n, j, OffersOf(devices[n])[j])
  {
  }

  lemma ToldStep(devices: seq<Device>, n: int, offers: seq<Offer>, table: seq<(int, int)>, own: seq<Offer>)
    requires AllTold(devices, n, offers, table)
    requires forall j :: 0 <= j < |own| ==> Tells(devices, n, j, own[j])
    ensures AllTold(devices, n + 1, offers + own, table + OwnPlaces(n, |own|))
  {
    var all, places := offers + own, table + OwnPlaces(n, |own|);
    forall i | 0 <= i < |places| ensures places[i].0 < n + 1 && Tells(devices, places[i].0, places[i].1, all[i]) {
      if i < |table| {
        assert places[i] == table[i] && all[i] == offers[i];
      } else {
        assert places[i] == (n, i - |table|) && all[i] == own[i - |table|];
      }
    }
  }

  lemma OrderStep(table: seq<(int, int)>, n: int, count: nat)
    requires InOrder(table) && forall i :: 0 <= i < |table| ==> table[i].0 < n
    ensures InOrder(table + OwnPlaces(n, count))
  {
  }

  lemma CompleteStep(devices: seq<Device>, n: int, table: seq<(int, int)>, count: nat)
    requires Complete(devices, n, table) && forall j :: InListing(devices, n, j) <==> 0 <= j < count
    ensures Complete(devices, n + 1, table + OwnPlaces(n, count))
  {
    forall k, j | k < n + 1 && InListing(devices, k, j) ensures (k, j) in table + OwnPlaces(n, count) {
      if k == n { assert OwnPlaces(n, count)[j] == (k, j); }
    }
  }

  lemma {:induction false} BuildTable(devices: seq<Device>, n: nat) returns (table: seq<(int, int)>)
    requires AllDirs(devices) && n <= |devices|
    ensures IsTable(devices, n, Offers(devices[..n]), table)
  {
    if n == 0 {
      table := [];
    } else {
      table := BuildTable(devices, n - 1);
      var own := OffersOf(devices[n - 1]);
      OwnTold(devices, n - 1);
      ToldStep(devices, n - 1, Offers(devices[..n - 1]), table, own);
      OrderStep(table, n - 1, |own|);
      CompleteStep(devices, n - 1, table, |own|);
      OffersStep(devices, n - 1);
      table := table + OwnPlaces(n - 1, |own|);
    }
  }

  /** What a device that responds must do for the extraction to go through. */
  ghost predicate PlaceFine(devices: seq<Device>, k: int, j: int, policy: Policy)
    requires InListing(devices, k, j)
  {
    var d, path := devices[k], ListedAt(devices, k, j);
    && SafeFilename(path).Some?
    && (FirstListed(devices, k, j) ==> path in d.files && d.files[path].Wrote?
                                       && PullsClean(d, path, d.files[path].file, policy))
  }

  ghost predicate AllFine(devices: seq<Device>, policy: Policy) {
    forall k, j :: InListing(devices, k, j) ==> PlaceFine(devices, k, j, policy)
  }

  lemma EarlierIndex(table: seq<(int, int)>, i: int, i2: int)
    requires InOrder(table) && 0 <= i < |table| && 0 <= i2 < |table| && Before(table[i2], table[i])
    ensures i2 < i
  {
  }

  lemma EarlierOffered(devices: seq<Device>, offers: seq<Offer>, table: seq<(int, int)>, i: int, k2: int, j2: int)
    returns (i2: int)
    requires IsTable(devices, |devices|, offers, table) && 0 <= i < |offers|
    requires InListing(devices, k2, j2) && Before((k2, j2), table[i])
    ensures 0 <= i2 < i && Tells(devices, k2, j2, offers[i2])
  {
    i2 :| 0 <= i2 < |table| && table[i2] == (k2, j2);
    assert Tells(devices, table[i2].0, table[i2].1, offers[i2]);
    EarlierIndex(table, i, i2);
  }

  lemma FirstIsListedFirst(devices: seq<Device>, offers: seq<Offer>, table: seq<(int, int)>, i: int, k: int, j: int)
    requires IsTable(devices, |devices|, offers, table) && 0 <= i < |offers| && table[i] == (k, j)
    requires Tells(devices, k, j, offers[i]) && First(map[], offers, i)
    ensures FirstListed(devices, k, j)
  {
    forall k2, j2 | InListing(devices, k2, j2) && (k2 < k || (k2 == k && j2 < j))
      ensures SafeFilename(ListedAt(devices, k2, j2)) != SafeFilename(ListedAt(devices, k, j))
    {
      var i2 := EarlierOffered(devices, offers, table, i, k2, j2);
      assert offers[i2].name != offers[i].name;
    }
  }

  lemma ListedFirstIsFirst(devices: seq<Device>, offers: seq<Offer>, table: seq<(int, int)>, i: int, k: int, j: int)
    requires IsTable(devices, |devices|, offers, table) && 0 <= i < |offers| && table[i] == (k, j)
    requires Tells(devices, k, j, offers[i]) && offers[i].name.Some? && FirstListed(devices, k, j)
    ensures First(map[], offers, i)
  {
    forall i2 | 0 <= i2 < i ensures offers[i2].name != offers[i].name {
      assert Tells(devices, table[i2].0, table[i2].1, offers[i2]) && Before(table[i2], table[i]);
    }
  }

  lemma FineIff(devices: seq<Device>, offers: seq<Offer>, table: seq<(int, int)>, i: int, policy: Policy)
    requires IsTable(devices, |devices|, offers, table) && 0 <= i < |offers|
    ensures InListing(devices, table[i].0, table[i].1)
    ensures Fine(map[], offers, i, policy) <==> PlaceFine(devices, table[i].0, table[i].1, policy)
  {
    assert Tells(devices, table[i].0, table[i].1, offers[i]);
    if First(map[], offers, i) { FirstIsListedFirst(devices, offers, table, i, table[i].0, table[i].1); }
    if offers[i].name.Some? && FirstListed(devices, table[i].0, table[i].1) {
      ListedFirstIsFirst(devices, offers, table, i, table[i].0, table[i].1);
    }
  }

  lemma AllFineIff(devices: seq<Device>, offers: seq<Offer>, table: seq<(int, int)>, policy: Policy)
    requires IsTable(devices, |devices|, offers, table)
    ensures AllFine(devices, policy) <==> forall i :: 0 <= i < |offers| ==> Fine(map[], offers, i, policy)
  {
    forall i | 0 <= i < |offers|
      ensures InListing(devices, table[i].0, table[i].1)
      ensures Fine(map[], offers, i, policy) <==> PlaceFine(devices, table[i].0, table[i].1, policy)
    {
      FineIff(devices, offers, table, i, policy);
    }
    if forall i :: 0 <= i < |offers| ==> Fine(map[], offers, i, policy) {
      forall k, j | InListing(devices, k, j) ensures PlaceFine(devices, k, j, policy) {
        var i :| 0 <= i < |table| && table[i] == (k, j);
      }
    }
  }

  /** When an extraction gets through its pulls: if and only if, for every device that is online and answers,
      its directory can be made, all its paths have safe names, and each path that is the first of its name is
      pulled with a content within the limit and signed as required. */
  lemma MergedIff(devices: seq<Device>, policy: Policy)
    ensures Merged(devices, policy).Some? <==> AllDirs(devices) && AllFine(devices, policy)
  {
    if AllDirs(devices) {
      var table := BuildTable(devices, |devices|);
      assert devices[..|devices|] == devices;
      AllFineIff(devices, Offers(devices), table, policy);
      MergeMeaning(map[], Offers(devices), policy);
    } else {
      var k :| 0 <= k < |devices| && Responds(devices[k]) && !devices[k].dirOk;
      DirMissing(devices, k);
      if Merged(devices, policy).Some? { DirsMade(devices, policy); }
    }
  }
}
