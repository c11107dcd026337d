/** The names the service accepts and the names it makes: package names, APK file names pulled
    from a device, and the files of a package directory. */
module Names {
  import opened Text

  // Package names: ^[a-zA-Z][a-zA-Z0-9_]*(\.[a-zA-Z][a-zA-Z0-9_]*)+$

  predicate IsLetter(c: char) {
    'a' <= c <= 'z' || 'A' <= c <= 'Z'
  }

  predicate IsWord(c: char) {
    IsLetter(c) || IsDigit(c) || c == '_'
  }

  /** Where the automaton of the pattern stands: before or inside the first segment, or before or
      inside a later one. */
  datatype Place = BeforeFirst | InFirst | BeforeLater | InLater | Dead

  function Advance(at: Place, c: char): Place {
    match at
    case BeforeFirst => if IsLetter(c) then InFirst else Dead
    case BeforeLater => if IsLetter(c) then InLater else Dead
    case InFirst => if IsWord(c) then InFirst else if c == '.' then BeforeLater else Dead
    case InLater => if IsWord(c) then InLater else if c == '.' then BeforeLater else Dead
    case Dead => Dead
  }

  predicate Accepts(at: Place, s: string)
    decreases |s|
  {
    if s == "" then at == InLater else Accepts(Advance(at, s[0]), s[1..])
  }

  predicate ValidPackageName(name: string) {
    Accepts(BeforeFirst, name)
  }

  predicate AllWord(s: string) {
    forall c :: c in s ==> IsWord(c)
  }

  predicate IsIdentifier(s: string) {
    s != "" && IsLetter(s[0]) && AllWord(s)
  }

  predicate AllIdentifiers(parts: seq<string>) {
    forall p :: p in parts ==> IsIdentifier(p)
  }

  /** What the rest of the input must look like at each place, in terms of its dot-split. */
  predicate Fits(at: Place, parts: seq<string>)
    requires parts != []
  {
    match at
    case BeforeFirst => |parts| >= 2 && AllIdentifiers(parts)
    case BeforeLater => AllIdentifiers(parts)
    case InFirst => |parts| >= 2 && AllWord(parts[0]) && AllIdentifiers(parts[1..])
    case InLater => AllWord(parts[0]) && AllIdentifiers(parts[1..])
    case Dead => false
  }

  lemma {:induction false} AcceptsFits(at: Place, s: string)
    ensures Accepts(at, s) <==> Fits(at, Split(s, '.'))
    decreases |s|
  {
    var parts := Split(s, '.');
    if s == "" {
      assert parts[0] in parts;
    } else {
      var c, rest := s[0], Split(s[1..], '.');
      AcceptsFits(Advance(at, c), s[1..]);
      assert rest == [rest[0]] + rest[1..];
      assert parts == [parts[0]] + parts[1..];
      if c == '.' {
        assert parts[1..] == rest;
        assert parts[0] in parts && !IsIdentifier(parts[0]);
      } else {
        assert parts[0] == [c] + rest[0] && parts[1..] == rest[1..];
        assert AllWord(parts[0]) <==> IsWord(c) && AllWord(rest[0]) by {
          assert forall d :: d in parts[0] <==> d == c || d in rest[0];
        }
        assert AllIdentifiers(parts) <==> IsIdentifier(parts[0]) && AllIdentifiers(rest[1..]);
      }
    }
  }

  /** The pattern accepts exactly the names whose dot-split has two or more identifiers. */
  lemma PackageNameIsDottedIdentifiers(name: string)
    ensures ValidPackageName(name)
       <==> |Split(name, '.')| >= 2 && AllIdentifiers(Split(name, '.'))
  {
    AcceptsFits(BeforeFirst, name);
  }

  lemma {:induction false} AcceptedChars(at: Place, s: string)
    requires Accepts(at, s)
    ensures forall c :: c in s ==> IsWord(c) || c == '.'
    decreases |s|
  {
    if s == "" {
    } else {
      if at == Dead { DeadStaysDead(s); }
      AcceptedChars(Advance(at, s[0]), s[1..]);
      if !(IsWord(s[0]) || s[0] == '.') { DeadStaysDead(s[1..]); }
    }
  }

  lemma {:induction false} DeadStaysDead(s: string)
    ensures !Accepts(Dead, s)
  {
    if s == "" {
    } else {
      DeadStaysDead(s[1..]);
    }
  }

  function Under(dir: string, name: string): string {
    dir + "/" + name
  }

  const STATE_DIR := "state"
  const TMP_DIR := ".tmp"

  /** Two trees below the same directory that hang on different single segments share no path. */
  lemma DisjointTrees(dir: string, a: string, b: string, x: string, y: string)
    requires '/' !in a && '/' !in b && a != b
    ensures Under(Under(dir, a), x) != Under(Under(dir, b), y)
    ensures Under(dir, a) != Under(dir, b)
    ensures Under(Under(dir, a), x) != Under(dir, b)
  {
    var cut := |dir| + 1;
    assert Under(Under(dir, a), x)[cut..] == a + "/" + x;
    assert Under(Under(dir, b), y)[cut..] == b + "/" + y;
    assert Under(dir, a)[cut..] == a && Under(dir, b)[cut..] == b;
    SplitCons(a, x, '/');
    SplitCons(b, y, '/');
    SplitWhole(b, '/');
    assert a + "/" + x == a + ['/'] + x && b + "/" + y == b + ['/'] + y;
    assert Split(a + ['/'] + x, '/')[0] == a && Split(b + ['/'] + y, '/')[0] == b;
  }

  /** A package directory is one path segment, apart from every other package's and from the
      service's own directories. */
  lemma PackageDirsDisjoint(out: string, p: string, q: string, x: string, y: string)
    requires ValidPackageName(p)
    requires p != q && (ValidPackageName(q) || q == STATE_DIR || q == TMP_DIR)
    ensures p != STATE_DIR && p != TMP_DIR && p != "" && p != ".." && '/' !in p
    ensures Under(Under(out, p), x) != Under(Under(out, q), y)
    ensures Under(Under(out, p), x) != Under(out, q) && Under(out, p) != Under(out, q)
  {
    PackageIsPlainSegment(p);
    if ValidPackageName(q) { PackageIsPlainSegment(q); }
    DisjointTrees(out, p, q, x, y);
  }

  lemma PackageIsPlainSegment(p: string)
    requires ValidPackageName(p)
    ensures p != STATE_DIR && p != TMP_DIR && p != "" && p != ".." && '/' !in p
  {
    assert p != "";
    AcceptedChars(BeforeFirst, p);
    DeadStaysDead(p[1..]);
    PackageNameIsDottedIdentifiers(p);
    if p == STATE_DIR {
      SplitWhole(p, '.');
    }
  }

  // APK file names reported by a device.

  function StripSlashes(path: string): string {
    if path != "" && path[|path| - 1] == '/' then StripSlashes(path[..|path| - 1]) else path
  }

  function LastSegment(path: string): string {
    if path == "" || path[|path| - 1] == '/' then ""
    else LastSegment(path[..|path| - 1]) + [path[|path| - 1]]
  }

  function Base(path: string): string {
    var last := LastSegment(StripSlashes(path));
    if path == "" then "." else if last == "" then "/" else last
  }

  predicate IsSafeChar(c: char) {
    IsWord(c) || c == '-' || c == '.'
  }

  predicate IsSafeName(name: string) {
    && HasSuffix(name, ".apk")
    && (forall c :: c in name ==> IsSafeChar(c))
    && !HasPrefix(name, ".")
  }

  function SafeFilename(devicePath: string): Option<string> {
    var name := Base(devicePath);
    if IsSafeName(name) then Some(name) else None
  }

  lemma {:induction false} LastSegmentNoSlash(dir: string, name: string)
    requires '/' !in name
    ensures LastSegment(name) == name
    ensures LastSegment(Under(dir, name)) == name
  {
    var path := Under(dir, name);
    if name != "" {
      var front := name[..|name| - 1];
      assert name[|name| - 1] in name;
      assert path[..|path| - 1] == Under(dir, front);
      LastSegmentNoSlash(dir, front);
    }
  }

  /** An accepted name is one plain segment, is accepted again unchanged from any directory, and
      cannot be the manifest of a bundle. */
  lemma SafeFilenameIdempotent(devicePath: string, dir: string)
    requires SafeFilename(devicePath).Some?
    ensures var name := SafeFilename(devicePath).value;
      && '/' !in name && name != "manifest.json" && name != ".." && |name| > |".apk"|
      && SafeFilename(name) == Some(name)
      && SafeFilename(Under(dir, name)) == Some(name)
  {
    var name := SafeFilename(devicePath).value;
    assert '/' !in name;
    LastSegmentNoSlash(dir, name);
    assert "manifest.json"[9..] == "json";
  }

  /** Which names are accepted, in whatever directory the device has them. */
  lemma SafeFilenameIff(dir: string, name: string)
    requires name != "" && '/' !in name
    ensures SafeFilename(Under(dir, name)) == (if SafeFilename(Under(dir, name)).Some? then Some(name) else None)
    ensures SafeFilename(Under(dir, name)).Some? <==>
      && |name| >= 4 && name[|name| - 4..] == ".apk" && name[0] != '.'
      && forall c :: c in name ==>
           'a' <= c <= 'z' || 'A' <= c <= 'Z' || '0' <= c <= '9' || c == '_' || c == '-' || c == '.'
    ensures SafeFilename(Under(dir, name) + "/") == SafeFilename(Under(dir, name))
  {
    var path := Under(dir, name);
    LastSegmentNoSlash(dir, name);
    assert path[|path| - 1] == name[|name| - 1] && name[|name| - 1] in name;
    assert StripSlashes(path) == path && Base(path) == name;
    assert (path + "/")[..|path + "/"| - 1] == path && StripSlashes(path + "/") == path;
    assert HasPrefix(name, ".") <==> name[0] == '.';
  }

  /** Pulled files land at different local paths whenever their names differ, whatever directory
      each device uses. */
  lemma LocalPathsInjective(dirA: string, a: string, dirB: string, b: string)
    requires '/' !in a && '/' !in b
    ensures Under(dirA, a) == Under(dirB, b) ==> a == b
  {
    LastSegmentNoSlash(dirA, a);
    LastSegmentNoSlash(dirB, b);
  }

  /** What each split APK is called in the manifest. */
  function SplitId(filename: string): string {
    var name := TrimSuffix(filename, ".apk");
    if name == "base" then "base" else TrimPrefix(name, "split_")
  }

  /** The identifier of a split is its name without extension and without the prefix of a split. */
  lemma SplitIdMeaning(id: string)
    ensures SplitId("base" + ".apk") == "base"
    ensures SplitId("split_" + id + ".apk") == id
    ensures !("split_" <= id) ==> SplitId(id + ".apk") == id
  {
    CutSuffix("base" + ".apk", "base", ".apk");
    CutSuffix("split_" + id + ".apk", "split_" + id, ".apk");
    CutSuffix(id + ".apk", id, ".apk");
    assert ("split_" + id)[0] == 's' && "base"[0] == 'b';
  }

  // The files of a package directory.

  datatype Ext = Apk | Xapk

  function Suffix(x: Ext): string {
    match x case Apk => ".apk" case Xapk => ".xapk"
  }

  function ArtifactText(code: int, x: Ext): string {
    Itoa(code) + Suffix(x)
  }

  /** The version code that pruning reads from a file name; none when it is not a version file. */
  function VersionOf(name: string): Option<int> {
    if HasSuffix(name, ".xapk") then Atoi(TrimSuffix(name, ".xapk"))
    else if HasSuffix(name, ".apk") then Atoi(TrimSuffix(name, ".apk"))
    else None
  }

  /** File names by what they are made of. `ParseName` and `ToString` convert from and to the string. */
  datatype FileName =
    | Artifact(code: int, ext: Ext) | Sidecar(of: FileName) | Tmp(of: FileName) | Latest | Other(text: string)
  {
    function ToString(): string {
      match this
      case Artifact(code, x) => ArtifactText(code, x)
      case Sidecar(f) => f.ToString() + ".sha256"
      case Tmp(f) => f.ToString() + ".tmp"
      case Latest => "latest.json"
      case Other(text) => text
    }

    function Version(): Option<int> {
      match this
      case Artifact(code, _) => Some(code)
      case Other(text) => VersionOf(text)
      case _ => None
    }

    /** A name the service itself writes. */
    predicate IsService() {
      match this
      case Artifact(code, _) => InInt64(code)
      case Sidecar(f) => f.IsService()
      case Tmp(f) => f.IsService()
      case Latest => true
      case Other(_) => false
    }
  }

  function ParseName(s: string): FileName
    decreases |s|
  {
    if HasSuffix(s, ".tmp") then Tmp(ParseName(TrimSuffix(s, ".tmp")))
    else if HasSuffix(s, ".sha256") then Sidecar(ParseName(TrimSuffix(s, ".sha256")))
    else if s == "latest.json" then Latest
    else match VersionOf(s)
      case None => Other(s)
      case Some(code) =>
        if s == ArtifactText(code, Apk) then Artifact(code, Apk)
        else if s == ArtifactText(code, Xapk) then Artifact(code, Xapk)
        else Other(s)
  }

  lemma VersionOfArtifact(code: int, x: Ext)
    requires InInt64(code)
    ensures VersionOf(ArtifactText(code, x)) == Some(code)
  {
    var name := ArtifactText(code, x);
    AtoiItoa(code);
    assert name[..|Itoa(code)|] == Itoa(code);
    if x == Apk {
      assert name[|name| - 4..] == ".apk";
      assert name[|name| - 4] == '.';
    }
  }

  /** A number and one of the two extensions. */
  ghost predicate IsVersionName(name: string, code: int) {
    exists digits: string :: Writes(digits, code) && (name == digits + ".apk" || name == digits + ".xapk")
  }

  /** Which names are version files, and of which version: a number that can be read, with one of the two
      extensions. */
  lemma VersionIff(name: string, code: int)
    ensures VersionOf(name) == Some(code) <==> InInt64(code) && IsVersionName(name, code)
  {
    if VersionOf(name) == Some(code) {
      var suffix := if HasSuffix(name, ".xapk") then ".xapk" else ".apk";
      JoinSuffix(name, suffix);
      AtoiIff(TrimSuffix(name, suffix), code);
    }
    if InInt64(code) && IsVersionName(name, code) {
      var digits: string :| Writes(digits, code) && (name == digits + ".apk" || name == digits + ".xapk");
      AtoiIff(digits, code);
      if name == digits + ".xapk" {
        CutSuffix(name, digits, ".xapk");
      } else {
        CutSuffix(name, digits, ".apk");
        NotXapk(name, digits);
      }
    }
  }

  lemma NotXapk(name: string, front: string)
    requires name == front + ".apk" && Atoi(front).Some?
    ensures !HasSuffix(name, ".xapk")
  {
    LastIsDigit(front);
    assert name[|name| - 5] == front[|front| - 1];
    assert ".xapk"[0] == '.';
  }

  lemma LastIsDigit(s: string)
    requires Atoi(s).Some?
    ensures s != "" && IsDigit(s[|s| - 1])
  {
    var digits := if s[0] == '-' || s[0] == '+' then s[1..] else s;
    assert digits[|digits| - 1] in digits;
  }

  /** Only version files carry a version: side files never do. */
  lemma OthersHaveNoVersion(name: string)
    ensures VersionOf(name + ".sha256") == None
    ensures VersionOf(name + ".tmp") == None
  {
    var side, tmp := name + ".sha256", name + ".tmp";
    assert side[|side| - 1] == '6' && tmp[|tmp| - 1] == 'p';
    assert tmp[|tmp| - 2] == 'm';
  }

  lemma LatestHasNoVersion(s: string)
    requires s == "latest.json"
    ensures VersionOf(s) == None
  {
    assert s[|s| - 1] == 'n';
  }

  lemma CutSuffix(s: string, front: string, suffix: string)
    requires s == front + suffix
    ensures HasSuffix(s, suffix) && TrimSuffix(s, suffix) == front
    ensures suffix != "" ==> s[|s| - 1] == suffix[|suffix| - 1]
  {
  }

  lemma JoinSuffix(s: string, suffix: string)
    requires HasSuffix(s, suffix)
    ensures s == TrimSuffix(s, suffix) + suffix
  {
  }

  /** Every string is the text of a name with the version pruning reads from it. */
  lemma {:induction false} ParseNameToString(s: string)
    ensures ParseName(s).ToString() == s && ParseName(s).Version() == VersionOf(s)
    decreases |s|
  {
    if HasSuffix(s, ".tmp") {
      var front := TrimSuffix(s, ".tmp");
      JoinSuffix(s, ".tmp");
      ParseNameToString(front);
      OthersHaveNoVersion(front);
    } else if HasSuffix(s, ".sha256") {
      var front := TrimSuffix(s, ".sha256");
      JoinSuffix(s, ".sha256");
      ParseNameToString(front);
      OthersHaveNoVersion(front);
    } else {
      PlainNameToString(s);
    }
  }

  lemma PlainNameToString(s: string)
    requires !HasSuffix(s, ".tmp") && !HasSuffix(s, ".sha256")
    ensures ParseName(s).ToString() == s && ParseName(s).Version() == VersionOf(s)
  {
    if s == "latest.json" {
      LatestHasNoVersion(s);
    } else {
      match VersionOf(s)
      case None => assert ParseName(s) == Other(s);
      case Some(code) =>
        assert ParseName(s) == if s == ArtifactText(code, Apk) then Artifact(code, Apk)
                               else if s == ArtifactText(code, Xapk) then Artifact(code, Xapk) else Other(s);
    }
  }

  lemma TmpParsesBack(front: string)
    ensures ParseName(front + ".tmp") == Tmp(ParseName(front))
  {
    CutSuffix(front + ".tmp", front, ".tmp");
  }

  lemma SidecarParsesBack(front: string)
    ensures ParseName(front + ".sha256") == Sidecar(ParseName(front))
  {
    CutSuffix(front + ".sha256", front, ".sha256");
  }

  lemma ArtifactParsesBack(code: int, x: Ext)
    requires InInt64(code)
    ensures ParseName(ArtifactText(code, x)) == Artifact(code, x)
  {
    var s := ArtifactText(code, x);
    VersionOfArtifact(code, x);
    CutSuffix(s, Itoa(code), Suffix(x));
    assert s[|s| - 1] == 'k' && |ArtifactText(code, Apk)| != |ArtifactText(code, Xapk)|;
  }

  /** The names the service writes are recovered from their text; so no two of them collide. */
  lemma {:induction false} StringParsesBack(f: FileName)
    requires f.IsService()
    ensures ParseName(f.ToString()) == f
  {
    match f
    case Tmp(g) =>
      StringParsesBack(g);
      TmpParsesBack(g.ToString());
    case Sidecar(g) =>
      StringParsesBack(g);
      SidecarParsesBack(g.ToString());
    case Latest =>
      assert "latest.json"[|"latest.json"| - 1] == 'n';
    case Artifact(code, x) =>
      ArtifactParsesBack(code, x);
  }

  lemma StringInjective(f: FileName, g: FileName)
    requires f.IsService() && g.IsService()
    ensures f.ToString() == g.ToString() <==> f == g
  {
    StringParsesBack(f);
    StringParsesBack(g);
  }
}
