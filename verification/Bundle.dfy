/** The published payload: a single APK, or an XAPK archive (extractor/extractor.go:194-317). */
module Bundle {
  import opened Text
  import opened Names
  import opened Merge

  datatype SplitEntry = SplitEntry(file: string, id: string)

  datatype Manifest = Manifest(xapkVersion: int, packageName: string, versionCode: string,
                               versionName: string, architectures: seq<string>, splits: seq<SplitEntry>)

  datatype ZipData = Raw(bytes: Bytes) | Doc(manifest: Manifest)
  datatype ZipEntry = ZipEntry(name: string, data: ZipData)

  datatype Payload = Single(bytes: Bytes) | Archive(entries: seq<ZipEntry>)

  const MANIFEST := "manifest.json"

  /** What goes into every manifest besides the splits. */
  datatype Release = Release(pkg: string, code: int, name: string)

  function SplitsOf(names: seq<string>): seq<SplitEntry> {
    seq(|names|, i requires 0 <= i < |names| => SplitEntry(names[i], SplitId(names[i])))
  }

  function ApkEntries(names: seq<string>, c: map<string, Bytes>): seq<ZipEntry>
    requires forall n :: n in names ==> n in c
  {
    seq(|names|, i requires 0 <= i < |names| => ZipEntry(names[i], Raw(c[names[i]])))
  }

  function ManifestOf(release: Release, abis: seq<string>, names: seq<string>): Manifest {
    Manifest(2, release.pkg, Itoa(release.code), release.name, abis, SplitsOf(names))
  }

  /** `names` lists the keys of `c` in increasing order. */
  ghost predicate ListsKeys(names: seq<string>, c: map<string, Bytes>) {
    StrictlySorted(names) && forall n :: n in names <==> n in c
  }

  function XapkOf(release: Release, abis: seq<string>, names: seq<string>, c: map<string, Bytes>): Payload
    requires forall n :: n in names ==> n in c
  {
    Archive(ApkEntries(names, c) + [ZipEntry(MANIFEST, Doc(ManifestOf(release, abis, names)))])
  }

  /** The archive of a collection: its files in increasing order of name, then the manifest. */
  ghost predicate IsXapkOf(p: Payload, release: Release, abis: seq<string>, c: map<string, Bytes>) {
    exists names :: ListsKeys(names, c) && p == XapkOf(release, abis, names, c)
  }

  /** Map iteration order leaves no trace in the archive. */
  lemma XapkUnique(a: Payload, b: Payload, release: Release, abis: seq<string>, c: map<string, Bytes>)
    requires IsXapkOf(a, release, abis, c) && IsXapkOf(b, release, abis, c)
    ensures a == b
  {
    var x :| ListsKeys(x, c) && a == XapkOf(release, abis, x, c);
    var y :| ListsKeys(y, c) && b == XapkOf(release, abis, y, c);
    SortedUnique(x, y);
  }

  /** Unpacking: every entry but the manifest, by name; a later entry would replace an earlier one. */
  function ReadBack(entries: seq<ZipEntry>): map<string, Bytes> {
    if entries == [] then map[]
    else
      var rest, last := ReadBack(entries[..|entries| - 1]), entries[|entries| - 1];
      if last.name != MANIFEST && last.data.Raw? then rest[last.name := last.data.bytes] else rest
  }

  lemma {:induction false} ReadBackApks(names: seq<string>, c: map<string, Bytes>)
    requires MANIFEST !in c && forall n :: n in names ==> n in c
    ensures ReadBack(ApkEntries(names, c)) == map n | n in names :: c[n]
  {
    if names == [] {
    } else {
      var front := names[..|names| - 1];
      assert ApkEntries(names, c)[..|names| - 1] == ApkEntries(front, c);
      assert names == front + [names[|names| - 1]];
      ReadBackApks(front, c);
    }
  }

  /** Bundling loses nothing: unpacking gives the collection back. The files stand in increasing order of name,
      and the manifest behind them names exactly these, in their order, and the release. */
  lemma XapkRoundTrip(p: Payload, release: Release, abis: seq<string>, c: map<string, Bytes>)
    requires IsXapkOf(p, release, abis, c) && MANIFEST !in c
    ensures p.Archive? && ReadBack(p.entries) == c
    ensures var last := p.entries[|p.entries| - 1];
      && last.name == MANIFEST && last.data.Doc?
      && |last.data.manifest.splits| == |p.entries| - 1
      && forall i :: 0 <= i < |p.entries| - 1 ==>
           last.data.manifest.splits[i] == SplitEntry(p.entries[i].name, SplitId(p.entries[i].name))
    ensures forall i, j :: 0 <= i < j < |p.entries| - 1 ==> Less(p.entries[i].name, p.entries[j].name)
    ensures var m := p.entries[|p.entries| - 1].data.manifest;
      && m.xapkVersion == 2 && m.packageName == release.pkg && m.versionName == release.name && m.architectures == abis
      && m.versionCode == Itoa(release.code) && (InInt64(release.code) ==> Atoi(m.versionCode) == Some(release.code))
  {
    if InInt64(release.code) { AtoiItoa(release.code); }
    var names :| ListsKeys(names, c) && p == XapkOf(release, abis, names, c);
    assert p.entries[..|p.entries| - 1] == ApkEntries(names, c);
    ReadBackApks(names, c);
  }

  /** The bytes of a collection in which every pull did leave a file. */
  function Present(c: Collection): map<string, Bytes> {
    map n | n in c && c[n].Some? :: c[n].value
  }

  predicate AllPresent(c: Collection) {
    forall n :: n in c ==> c[n].Some?
  }

  /** What the writers can make of a collection; which single file is picked is left open. */
  ghost predicate IsPayloadOf(p: Payload, split: bool, release: Release, abis: seq<string>, c: Collection) {
    if split then AllPresent(c) && IsXapkOf(p, release, abis, Present(c))
    else exists n :: n in c && c[n].Some? && p == Single(c[n].value)
  }

  lemma ArchiveEntry(p: Payload, release: Release, abis: seq<string>, c: map<string, Bytes>, e: ZipEntry)
    requires IsXapkOf(p, release, abis, c) && e in p.entries && e.name != MANIFEST
    ensures e.name in c && e.data == Raw(c[e.name])
  {
    var names :| ListsKeys(names, c) && p == XapkOf(release, abis, names, c);
    var i :| 0 <= i < |p.entries| && p.entries[i] == e;
    assert i < |names| && e.name == names[i] && names[i] in names;
  }

  lemma FileEntry(p: Payload, release: Release, abis: seq<string>, c: map<string, Bytes>, i: int)
    requires IsXapkOf(p, release, abis, c) && 0 <= i < |p.entries| - 1
    ensures p.entries[i].name in c && p.entries[i].data == Raw(c[p.entries[i].name])
  {
    var names :| ListsKeys(names, c) && p == XapkOf(release, abis, names, c);
    assert names[i] in names && p.entries[i] == ApkEntries(names, c)[i];
  }

  lemma NoManifest(devices: seq<Device>, policy: Policy)
    requires Merged(devices, policy).Some?
    ensures "manifest.json" !in Merged(devices, policy).value
  {
    var name := "manifest.json";
    if name in Merged(devices, policy).value {
      var k, path := MergedOrigin(devices, policy, name);
      SafeFilenameIdempotent(path, "");
    }
  }

  /** What was merged from the devices comes back out of the archive, name by name: no APK can take the
      manifest's place. */
  lemma MergedRoundTrip(p: Payload, release: Release, abis: seq<string>, devices: seq<Device>, policy: Policy)
    requires Merged(devices, policy).Some?
    requires IsPayloadOf(p, true, release, abis, Merged(devices, policy).value)
    ensures p.Archive? && ReadBack(p.entries).Keys == Merged(devices, policy).value.Keys
    ensures forall n :: n in Merged(devices, policy).value ==>
      Some(ReadBack(p.entries)[n]) == Merged(devices, policy).value[n]
  {
    var c := Merged(devices, policy).value;
    NoManifest(devices, policy);
    XapkRoundTrip(p, release, abis, Present(c));
    assert Present(c).Keys == c.Keys;
  }

  /** The single-file writer takes any entry of the map: what it publishes is determined exactly when all
      entries have the same content. Two devices with one differently named APK each lose one of them. */
  lemma SingleDeterminedIff(release: Release, abis: seq<string>, c: Collection)
    requires c != map[] && AllPresent(c)
    ensures (forall p, q :: IsSingleOf(p, release, abis, c) && IsSingleOf(q, release, abis, c) ==> p == q)
       <==> forall m, n :: m in c && n in c ==> c[m] == c[n]
  {
    forall m, n | m in c && n in c && c[m] != c[n]
      ensures exists p, q :: IsSingleOf(p, release, abis, c) && IsSingleOf(q, release, abis, c) && p != q
    {
      var p, q := Single(c[m].value), Single(c[n].value);
      assert IsSingleOf(p, release, abis, c) && IsSingleOf(q, release, abis, c) && p != q;
    }
  }

  ghost predicate IsSingleOf(p: Payload, release: Release, abis: seq<string>, c: Collection) {
    IsPayloadOf(p, false, release, abis, c)
  }
}
