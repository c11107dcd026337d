/** What a delivery promises about the artifact, in terms of what the devices handed out
    (extractor/extractor.go:61-113, 194-347). */
module Delivered {
  import opened Text
  import opened Names
  import opened Adb
  import opened Merge
  import opened Pulls
  import opened Bundle
  import opened Files
  import opened Protocol
  import opened Agreement

  /** Some device that is online and answers lists two paths or more. */
  ghost predicate SplitSomewhere(clients: seq<Client>) {
    exists k :: 0 <= k < |clients| && ListsSeveral(clients[k].device)
  }

  predicate ListsSeveral(d: Device) {
    d.online && d.listing.Some? && |d.listing.value| >= 2
  }

  /** A manifest that names the package, the version and the architecture of every client. */
  predicate RightManifest(m: Manifest, pkg: string, v: VersionInfo, clients: seq<Client>) {
    && m.xapkVersion == 2 && m.packageName == pkg && m.versionName == v.name
    && m.versionCode == Itoa(v.code) && Atoi(m.versionCode) == Some(v.code)
    && |m.architectures| == |clients| && forall i :: 0 <= i < |clients| ==> m.architectures[i] == clients[i].device.abi
  }

  /** An archive of checked files, closed by the manifest, which misses no name that any device lists. */
  ghost predicate RightArchive(p: Payload, pkg: string, v: VersionInfo, clients: seq<Client>, policy: Policy) {
    && p.Archive? && p.entries != []
    && var last := p.entries[|p.entries| - 1];
    && last.name == "manifest.json" && last.data.Doc? && RightManifest(last.data.manifest, pkg, v, clients)
    && (forall i :: 0 <= i < |p.entries| - 1 ==>
          p.entries[i].data.Raw?
          && CollectedFrom(Devices(clients), p.entries[i].name, Some(p.entries[i].data.bytes), policy))
    && (forall k, j :: InListing(Devices(clients), k, j) ==>
          var name := SafeFilename(ListedAt(Devices(clients), k, j));
          name.Some? && name.value in ReadBack(p.entries))
  }

  /** One checked file. */
  ghost predicate RightSingle(p: Payload, clients: seq<Client>, policy: Policy) {
    p.Single? && exists name :: CollectedFrom(Devices(clients), name, Some(p.bytes), policy)
  }

  /** What is told and what latest.json says agree with each other, with the agreed version, and with what was
      pulled: an archive when some listing has several paths, a single file when none has. */
  ghost predicate RightDelivery(d: Delivery, p: Payload, run: nat, pkg: string, v: VersionInfo, clients: seq<Client>,
                                policy: Policy, dir: Dir)
  {
    && d.run == run && d.pkg == pkg && d.code == v.code && d.name == v.name && d.checksum == Digest(Whole(p))
    && Latest in dir && dir[Latest] == LatestDoc(v.code, v.name, d.file)
    && if SplitSomewhere(clients) then
         d.isXapk && d.file == Artifact(v.code, Xapk) && RightArchive(p, pkg, v, clients, policy)
       else
         !d.isXapk && d.file == Artifact(v.code, Apk) && RightSingle(p, clients, policy)
  }

  lemma SplitIff(clients: seq<Client>)
    ensures IsSplit(Devices(clients)) <==> SplitSomewhere(clients)
  {
    if IsSplit(Devices(clients)) {
      var k :| 0 <= k < |Devices(clients)| && |Merge.Listed(Devices(clients)[k])| > 1;
      assert ListsSeveral(clients[k].device);
    }
    if SplitSomewhere(clients) {
      var k :| 0 <= k < |clients| && ListsSeveral(clients[k].device);
      assert |Merge.Listed(Devices(clients)[k])| > 1;
    }
  }

  predicate AbisMatch(abis: seq<string>, clients: seq<Client>) {
    |abis| == |clients| && forall i :: 0 <= i < |clients| ==> abis[i] == clients[i].device.abi
  }

  lemma ArchiveIsRight(p: Payload, pkg: string, v: VersionInfo, abis: seq<string>, clients: seq<Client>, policy: Policy)
    requires Merged(Devices(clients), policy).Some? && InInt64(v.code) && AbisMatch(abis, clients)
    requires IsPayloadOf(p, true, Release(pkg, v.code, v.name), abis, Merged(Devices(clients), policy).value)
    ensures RightArchive(p, pkg, v, clients, policy)
  {
    var devices, release := Devices(clients), Release(pkg, v.code, v.name);
    var c := Merged(devices, policy).value;
    MergedRoundTrip(p, release, abis, devices, policy);
    CollectedMeaning(devices, policy);
    NoManifest(devices, policy);
    XapkRoundTrip(p, release, abis, Present(c));
    forall i | 0 <= i < |p.entries| - 1
      ensures p.entries[i].data.Raw?
      ensures CollectedFrom(devices, p.entries[i].name, Some(p.entries[i].data.bytes), policy)
    {
      FileEntry(p, release, abis, Present(c), i);
      assert CollectedFrom(devices, p.entries[i].name, c[p.entries[i].name], policy);
    }
  }

  lemma SingleIsRight(p: Payload, release: Release, abis: seq<string>, clients: seq<Client>, policy: Policy)
    requires Merged(Devices(clients), policy).Some?
    requires IsPayloadOf(p, false, release, abis, Merged(Devices(clients), policy).value)
    ensures RightSingle(p, clients, policy)
  {
    var c := Merged(Devices(clients), policy).value;
    CollectedMeaning(Devices(clients), policy);
    var name :| name in c && c[name].Some? && p == Single(c[name].value);
    assert CollectedFrom(Devices(clients), name, c[name], policy);
  }
}
