/** Pulling and bundling as the code runs it: a map filled in place across nested loops, over files in
    a private directory (extractor/extractor.go:58-317). */
module Collector {
  import opened Text
  import opened Names
  import opened Merge
  import opened Bundle
  import Sorting

  /** What the collected names hold, given the files on disk. */
  function Stored(collected: map<string, string>, files: map<string, Bytes>): Collection {
    map n | n in collected :: if collected[n] in files then Some(files[collected[n]]) else None
  }

  /** Each name sits at a path that ends in it, and there are no other files. */
  ghost predicate Placed(collected: map<string, string>, files: map<string, Bytes>) {
    && (forall n :: n in collected ==> '/' !in n && LastSegment(collected[n]) == n)
    && (forall p :: p in files ==> LastSegment(p) in collected && collected[LastSegment(p)] == p)
  }

  /** A newly pulled file disturbs nothing accepted before, whichever directory it lands in. */
  lemma AcceptKeepsOthers(collected: map<string, string>, files: map<string, Bytes>, dir: string, name: string,
                          file: Option<Bytes>)
    requires Placed(collected, files) && name !in collected && '/' !in name
    ensures var path := Under(dir, name);
      var after := if file.Some? then files[path := file.value] else files;
      && Placed(collected[name := path], after)
      && Stored(collected[name := path], after) == Stored(collected, files)[name := file]
  {
    var path := Under(dir, name);
    LastSegmentNoSlash(dir, name);
    assert forall n :: n in collected ==> collected[n] != path;
    assert path !in files;
  }

  lemma MergeOne(acc: Collection, o: Offer, policy: Policy)
    ensures MergeOffers(acc, [o], policy) ==
      if o.NoDir? || o.name.None? then None
      else if o.name.value in acc then Some(acc)
      else if !Acceptable(o.pulled, policy) then None
      else Some(acc[o.name.value := o.pulled.file])
  {
    assert [o][1..] == [];
  }

  lemma MergeNext(acc: Collection, devices: seq<Device>, i: nat, policy: Policy)
    requires i < |devices|
    ensures var r := MergeOffers(acc, OffersOf(devices[i]), policy);
      MergeOffers(acc, Offers(devices[i..]), policy) ==
        if r.None? then None else MergeOffers(r.value, Offers(devices[i + 1..]), policy)
  {
    assert devices[i..][0] == devices[i] && devices[i..][1..] == devices[i + 1..];
    MergeConcat(acc, OffersOf(devices[i]), Offers(devices[i + 1..]), policy);
  }

  class Extraction {
    const tmpDir: string
    var collected: map<string, string>
    var files: map<string, Bytes>

    constructor (tmpDir: string)
      ensures Valid() && Contents() == map[] && this.tmpDir == tmpDir
    {
      this.tmpDir := tmpDir;
      collected, files := map[], map[];
    }

    function Contents(): Collection
      reads this
    {
      Stored(collected, files)
    }

    ghost predicate Valid()
      reads this
    {
      Placed(collected, files)
    }

    /** One APK. Names already collected are skipped; whatever was accepted before stays as it is. */
    method PullOne(d: Device, devicePath: string, emulatorDir: string, policy: Policy) returns (ok: bool)
      requires Valid()
      modifies this
      ensures ok ==> Valid()
      ensures MergeOffers(old(Contents()), [OfferOf(d, devicePath)], policy) == if ok then Some(Contents()) else None
      ensures ok ==> forall n :: n in old(collected) ==>
        n in collected && collected[n] == old(collected[n]) && Contents()[n] == old(Contents()[n])
    {
      MergeOne(old(Contents()), OfferOf(d, devicePath), policy);
      var filename := SafeFilename(devicePath);
      if filename.None? {
        return false;
      }
      var name := filename.value;
      SafeFilenameIdempotent(devicePath, emulatorDir);
      if name in collected {
        return true;
      }
      var localPath := Under(emulatorDir, name);
      var pulled := d.Pull(devicePath);
      if pulled.Failed? {
        return false;
      }
      AcceptKeepsOthers(collected, files, emulatorDir, name, pulled.file);
      if pulled.file.Some? {
        files := files[localPath := pulled.file.value];
      }
      if pulled.statOk && pulled.file.Some? && |pulled.file.value| > policy.maxBytes {
        files := files - {localPath};
        return false;
      }
      if policy.cert != "" {
        if !(pulled.file.Some? && policy.signedBy(pulled.file.value, policy.cert)) {
          files := files - {localPath};
          return false;
        }
      }
      collected := collected[name := localPath];
      return true;
    }

    method PullFromClient(d: Device, policy: Policy) returns (ok: bool, isSplit: bool)
      requires Valid()
      modifies this
      ensures ok ==> Valid() && isSplit == (|Listed(d)| > 1)
      ensures MergeOffers(old(Contents()), OffersOf(d), policy) == if ok then Some(Contents()) else None
      ensures ok ==> forall n :: n in old(collected) ==>
        n in collected && collected[n] == old(collected[n]) && Contents()[n] == old(Contents()[n])
    {
      isSplit := false;
      if !d.online || d.listing.None? {
        return true, false;
      }
      var paths := d.listing.value;
      if |paths| > 1 {
        isSplit := true;
      }
      if !d.dirOk {
        return false, false;
      }
      ghost var offers := OffersOf(d);
      var emulatorDir := Under(tmpDir, d.abi);
      var i := 0;
      while i < |paths|
        invariant 0 <= i <= |paths| == |offers|
        invariant Valid()
        invariant MergeOffers(old(Contents()), offers, policy) == MergeOffers(Contents(), offers[i..], policy)
        invariant forall n :: n in old(collected) ==>
          n in collected && collected[n] == old(collected[n]) && Contents()[n] == old(Contents()[n])
      {
        assert offers[i..] == [offers[i]] + offers[i + 1..] && offers[i] == OfferOf(d, paths[i]);
        MergeConcat(Contents(), [offers[i]], offers[i + 1..], policy);
        ok := PullOne(d, paths[i], emulatorDir, policy);
        if !ok {
          return false, false;
        }
        i := i + 1;
      }
      ok := true;
    }

    /** The client loop of `Extract`: refines the pure merge. */
    method Collect(devices: seq<Device>, policy: Policy) returns (ok: bool, isSplit: bool)
      requires Valid() && Contents() == map[]
      modifies this
      ensures Merged(devices, policy) == if ok then Some(Contents()) else None
      ensures ok ==> Valid() && isSplit == IsSplit(devices)
    {
      isSplit := false;
      var i := 0;
      while i < |devices|
        invariant 0 <= i <= |devices| && Valid()
        invariant Merged(devices, policy) == MergeOffers(Contents(), Offers(devices[i..]), policy)
        invariant isSplit ==> IsSplit(devices)
        invariant !isSplit ==> forall k :: 0 <= k < i ==> |Listed(devices[k])| <= 1
      {
        MergeNext(Contents(), devices, i, policy);
        var split;
        ok, split := PullFromClient(devices[i], policy);
        if !ok {
          return false, false;
        }
        if split {
          isSplit := true;
        }
        i := i + 1;
      }
      ok := true;
    }

    /** Any entry of the map: Go's iteration order. */
    method WriteSingle() returns (r: Option<Payload>)
      requires Contents() != map[]
      ensures r.Some? ==> exists n :: n in Contents() && Contents()[n].Some? && r == Some(Single(Contents()[n].value))
      ensures AllPresent(Contents()) ==> r.Some?
    {
      assert collected.Keys == Contents().Keys;
      var name :| name in collected;
      assert name in Contents();
      if collected[name] !in files {
        return None;
      }
      r := Some(Single(files[collected[name]]));
    }

    /** The entry loop of the archive writer; fails on a name whose file is missing. */
    method PackEntries(names: seq<string>) returns (ok: bool, entries: seq<ZipEntry>, splits: seq<SplitEntry>)
      requires forall n :: n in names ==> n in collected
      ensures ok <==> forall n :: n in names ==> n in Present(Contents())
      ensures ok ==> entries == ApkEntries(names, Present(Contents())) && splits == SplitsOf(names)
    {
      ghost var c := Present(Contents());
      entries, splits, ok := [], [], true;
      for i := 0 to |names|
        invariant forall n :: n in names[..i] ==> n in c
        invariant entries == ApkEntries(names[..i], c) && splits == SplitsOf(names[..i])
      {
        var name := names[i];
        assert name in names && names[..i + 1] == names[..i] + [name];
        splits := splits + [SplitEntry(name, SplitId(name))];
        if collected[name] !in files {
          assert name !in c;
          return false, [], [];
        }
        entries := entries + [ZipEntry(name, Raw(files[collected[name]]))];
      }
      assert names[..|names|] == names;
    }

    method WriteArchive(release: Release, abis: seq<string>) returns (r: Option<Payload>)
      ensures r.Some? <==> AllPresent(Contents())
      ensures r.Some? ==> IsXapkOf(r.value, release, abis, Present(Contents()))
    {
      var names := Sorting.SortedKeys(collected.Keys);
      ghost var c := Present(Contents());
      var ok, entries, splits := PackEntries(names);
      if !ok {
        return None;
      }
      assert ListsKeys(names, c);
      var manifest := Manifest(2, release.pkg, Itoa(release.code), release.name, abis, splits);
      r := Some(Archive(entries + [ZipEntry(MANIFEST, Doc(manifest))]));
    }

    /** What the collected files amount to, once reading them has gone well. */
    method MakePayload(isSplit: bool, release: Release, abis: seq<string>) returns (r: Option<Payload>)
      requires Contents() != map[]
      ensures r.Some? ==> IsPayloadOf(r.value, isSplit, release, abis, Contents())
      ensures AllPresent(Contents()) ==> r.Some?
    {
      if isSplit {
        r := WriteArchive(release, abis);
      } else {
        r := WriteSingle();
      }
    }
  }
}
