/** Reading the device's answers: `dumpsys package` and `pm path` output (adb/adb.go). */
module Adb {
  import opened Text

  datatype VersionInfo = VersionInfo(code: int, name: string)

  /** `Panics` is the index expression on an empty field list, which the code does not guard. */
  datatype Outcome = Parsed(info: VersionInfo) | BadCode | NotFound | Panics

  const MAX_VERSION_NAME: nat := 128
  const MAX_SCAN_TOKEN: nat := 65536
  const CODE := "versionCode="
  const NAME := "versionName="

  /** The lines bufio.Scanner delivers: no empty last line, nothing from an overlong line on. */
  function ScannedLines(output: string): seq<string> {
    ShortLines(WithoutEmptyLast(Split(output, '\n')))
  }

  function WithoutEmptyLast(parts: seq<string>): seq<string>
    requires parts != []
  {
    if parts[|parts| - 1] == "" then parts[..|parts| - 1] else parts
  }

  function ShortLines(lines: seq<string>): seq<string> {
    if lines == [] || |lines[0]| >= MAX_SCAN_TOKEN then [] else [lines[0]] + ShortLines(lines[1..])
  }

  /** Lines as the device prints them, each with its line end. */
  function Terminated(lines: seq<string>): string {
    if lines == [] then "" else lines[0] + ['\n'] + Terminated(lines[1..])
  }

  predicate Printable(lines: seq<string>) {
    forall l :: l in lines ==> '\n' !in l && |l| < MAX_SCAN_TOKEN
  }

  lemma ScannedLine(line: string, tail: string)
    requires '\n' !in line && |line| < MAX_SCAN_TOKEN
    ensures ScannedLines(line + ['\n'] + tail) == [line] + ScannedLines(tail)
  {
    SplitCons(line, tail, '\n');
    var parts := Split(tail, '\n');
    assert WithoutEmptyLast([line] + parts) == [line] + WithoutEmptyLast(parts);
    assert ([line] + WithoutEmptyLast(parts))[1..] == WithoutEmptyLast(parts);
  }

  /** Scanning undoes printing, whatever follows. */
  lemma {:induction false} ScannedPrefix(lines: seq<string>, rest: string)
    requires Printable(lines)
    ensures ScannedLines(Terminated(lines) + rest) == lines + ScannedLines(rest)
  {
    if lines == [] {
      assert Terminated(lines) + rest == rest;
    } else {
      ScannedPrefix(lines[1..], rest);
      ScannedLine(lines[0], Terminated(lines[1..]) + rest);
      Assoc(lines[0] + ['\n'], Terminated(lines[1..]), rest);
      Assoc([lines[0]], lines[1..], ScannedLines(rest));
      assert [lines[0]] + lines[1..] == lines;
    }
  }

  predicate IsHeader(pkg: string, line: string) {
    HasPrefix(TrimSpace(line), "Package [" + pkg + "]")
  }

  predicate HasCode(line: string) {
    HasPrefix(TrimSpace(line), CODE)
  }

  predicate HasName(line: string) {
    HasPrefix(TrimSpace(line), NAME)
  }

  function TakeWord(s: string): string {
    if s == "" || IsSpace(s[0]) then "" else [s[0]] + TakeWord(s[1..])
  }

  /** The first field after `versionCode=`; empty when there is none. */
  function CodeField(line: string): string
    requires HasCode(line)
  {
    TakeWord(TrimLeft(TrimSpace(line)[|CODE|..]))
  }

  function NameField(line: string): string
    requires HasName(line)
  {
    var name := TrimSpace(line)[|NAME|..];
    if |name| > MAX_VERSION_NAME then name[..MAX_VERSION_NAME] else name
  }

  predicate Complete(info: VersionInfo) {
    info.code != 0 && info.name != ""
  }

  function Finish(info: VersionInfo): Outcome {
    if info.code == 0 then NotFound else Parsed(info)
  }

  lemma NotBoth(line: string)
    ensures !(HasPrefix(line, CODE) && HasPrefix(line, NAME))
  {
    assert CODE[7] != NAME[7];
  }

  /** What one line inside the package's section contributes. */
  function Absorb(info: VersionInfo, line: string): Outcome {
    if HasCode(line) then
      if CodeField(line) == "" then Panics
      else match Atoi(CodeField(line))
        case None => BadCode
        case Some(code) => Parsed(info.(code := code))
    else if HasName(line) then Parsed(info.(name := NameField(line)))
    else Parsed(info)
  }

  /** The scan from some point on: the specification of the loop below. */
  function Scan(pkg: string, inPkg: bool, info: VersionInfo, lines: seq<string>): Outcome
    decreases |lines|
  {
    if lines == [] then Finish(info)
    else if IsHeader(pkg, lines[0]) then Scan(pkg, true, info, lines[1..])
    else if !inPkg then Scan(pkg, false, info, lines[1..])
    else
      var step := Absorb(info, lines[0]);
      if !step.Parsed? then step
      else if Complete(step.info) then step
      else Scan(pkg, true, step.info, lines[1..])
  }

  const EMPTY := VersionInfo(0, "")

  function Parse(pkg: string, output: string): Outcome {
    Scan(pkg, false, EMPTY, ScannedLines(output))
  }

  method ParseVersionInfo(pkg: string, output: string) returns (r: Outcome)
    ensures r == Parse(pkg, output)
  {
    var info, inPkg := EMPTY, false;
    var lines := ScannedLines(output);
    var i := 0;
    while i < |lines|
      invariant 0 <= i <= |lines|
      invariant Scan(pkg, false, EMPTY, lines) == Scan(pkg, inPkg, info, lines[i..])
    {
      var line := TrimSpace(lines[i]);
      assert lines[i..][0] == lines[i] && lines[i..][1..] == lines[i + 1..];
      i := i + 1;
      NotBoth(line);
      if HasPrefix(line, "Package [" + pkg + "]") {
        inPkg := true;
        continue;
      }
      if !inPkg {
        continue;
      }
      if HasPrefix(line, CODE) {
        var field := TakeWord(TrimLeft(line[|CODE|..]));
        if field == "" {
          return Panics;
        }
        var code := Atoi(field);
        if code.None? {
          return BadCode;
        }
        info := info.(code := code.value);
      }
      if HasPrefix(line, NAME) {
        var name := line[|NAME|..];
        if |name| > MAX_VERSION_NAME {
          name := name[..MAX_VERSION_NAME];
        }
        info := info.(name := name);
      }
      if info.code != 0 && info.name != "" {
        return Parsed(info);
      }
    }
    r := Finish(info);
  }

  /** A reported code is a 64-bit number other than zero. */
  lemma {:induction false} ParsedInRange(pkg: string, inPkg: bool, info: VersionInfo, lines: seq<string>)
    requires InInt64(info.code)
    ensures var r := Scan(pkg, inPkg, info, lines); r.Parsed? ==> InInt64(r.info.code) && r.info.code != 0
    decreases |lines|
  {
    if lines == [] {
    } else {
      ParsedInRange(pkg, true, info, lines[1..]);
      ParsedInRange(pkg, false, info, lines[1..]);
      var step := Absorb(info, lines[0]);
      if step.Parsed? { ParsedInRange(pkg, true, step.info, lines[1..]); }
    }
  }

  /** A line that says nothing about the version inside the section. */
  predicate Quiet(line: string) {
    !HasCode(line) && !HasName(line)
  }

  predicate AllQuiet(lines: seq<string>) {
    forall l :: l in lines ==> Quiet(l)
  }

  lemma {:induction false} SkipBefore(pkg: string, before: seq<string>, rest: seq<string>)
    requires forall l :: l in before ==> !IsHeader(pkg, l)
    ensures Scan(pkg, false, EMPTY, before + rest) == Scan(pkg, false, EMPTY, rest)
  {
    if before == [] {
      assert before + rest == rest;
    } else {
      assert (before + rest)[1..] == before[1..] + rest;
      SkipBefore(pkg, before[1..], rest);
    }
  }

  lemma {:induction false} SkipQuiet(pkg: string, info: VersionInfo, quiet: seq<string>, rest: seq<string>)
    requires AllQuiet(quiet) && !Complete(info)
    ensures Scan(pkg, true, info, quiet + rest) == Scan(pkg, true, info, rest)
  {
    if quiet == [] {
      assert quiet + rest == rest;
    } else {
      assert (quiet + rest)[1..] == quiet[1..] + rest;
      assert quiet[0] in quiet;
      SkipQuiet(pkg, info, quiet[1..], rest);
    }
  }

  /** A line with a version that parses, and is not itself a section header. */
  predicate GoodCode(pkg: string, line: string, code: int) {
    HasCode(line) && !IsHeader(pkg, line) && CodeField(line) != "" && Atoi(CodeField(line)) == Some(code)
  }

  predicate GoodName(pkg: string, line: string, name: string) {
    HasName(line) && !HasCode(line) && !IsHeader(pkg, line) && NameField(line) == name
  }

  lemma StepInside(pkg: string, info: VersionInfo, line: string, rest: seq<string>)
    requires !IsHeader(pkg, line)
    ensures Scan(pkg, true, info, [line] + rest) ==
            var step := Absorb(info, line);
            if step.Parsed? && !Complete(step.info) then Scan(pkg, true, step.info, rest) else step
  {
    assert ([line] + rest)[1..] == rest;
  }

  /** Section locality: once the target's section gives one non-zero code and one name, in either
      order, that is the answer, whatever came before the section and whatever text follows. */
  lemma SectionLocal(pkg: string, before: seq<string>, header: string, q1: seq<string>, first: string,
                     q2: seq<string>, second: string, rest: string, code: int, name: string)
    requires Printable(before + ([header] + (q1 + ([first] + (q2 + [second])))))
    requires forall l :: l in before ==> !IsHeader(pkg, l)
    requires IsHeader(pkg, header) && AllQuiet(q1) && AllQuiet(q2)
    requires code != 0 && name != ""
    requires (GoodCode(pkg, first, code) && GoodName(pkg, second, name))
          || (GoodName(pkg, first, name) && GoodCode(pkg, second, code))
    ensures Parse(pkg, Terminated(before + ([header] + (q1 + ([first] + (q2 + [second]))))) + rest)
            == Parsed(VersionInfo(code, name))
    ensures |name| <= MAX_VERSION_NAME
  {
    var lines, after := before + ([header] + (q1 + ([first] + (q2 + [second])))), ScannedLines(rest);
    ScannedPrefix(lines, rest);
    Assoc(before, [header] + (q1 + ([first] + (q2 + [second]))), after);
    Assoc([header], q1 + ([first] + (q2 + [second])), after);
    Assoc(q1, [first] + (q2 + [second]), after);
    Assoc([first], q2 + [second], after);
    Assoc(q2, [second], after);
    SectionLines(pkg, before, header, q1, first, q2, second, after, code, name);
  }

  lemma SectionLines(pkg: string, before: seq<string>, header: string, q1: seq<string>, first: string,
                     q2: seq<string>, second: string, after: seq<string>, code: int, name: string)
    requires forall l :: l in before ==> !IsHeader(pkg, l)
    requires IsHeader(pkg, header) && AllQuiet(q1) && AllQuiet(q2)
    requires code != 0 && name != ""
    requires (GoodCode(pkg, first, code) && GoodName(pkg, second, name))
          || (GoodName(pkg, first, name) && GoodCode(pkg, second, code))
    ensures Scan(pkg, false, EMPTY, before + ([header] + (q1 + ([first] + (q2 + ([second] + after))))))
            == Parsed(VersionInfo(code, name))
  {
    var tail := [second] + after;
    var mid := [first] + (q2 + tail);
    EnterSection(pkg, before, header, q1 + mid);
    SkipQuiet(pkg, EMPTY, q1, mid);
    StepInside(pkg, EMPTY, first, q2 + tail);
    var info := if HasCode(first) then VersionInfo(code, "") else VersionInfo(0, name);
    SkipQuiet(pkg, info, q2, tail);
    StepInside(pkg, info, second, after);
  }

  lemma EnterSection(pkg: string, before: seq<string>, header: string, body: seq<string>)
    requires (forall l :: l in before ==> !IsHeader(pkg, l)) && IsHeader(pkg, header)
    ensures Scan(pkg, false, EMPTY, before + ([header] + body)) == Scan(pkg, true, EMPTY, body)
  {
    SkipBefore(pkg, before, [header] + body);
    assert ([header] + body)[1..] == body;
  }

  // The scan of all lines after the header, in terms of the lines alone.

  function CodeIn(pkg: string, line: string): Option<int> {
    if !IsHeader(pkg, line) && HasCode(line) && CodeField(line) != "" then Atoi(CodeField(line)) else None
  }

  function NameIn(pkg: string, line: string): Option<string> {
    if !IsHeader(pkg, line) && !HasCode(line) && HasName(line) then Some(NameField(line)) else None
  }

  /** A code line that makes the scan fail. */
  predicate Unreadable(pkg: string, line: string) {
    !IsHeader(pkg, line) && HasCode(line) && CodeIn(pkg, line).None?
  }

  /** The last code and the last name among these lines. */
  function Gather(pkg: string, lines: seq<string>): VersionInfo {
    if lines == [] then EMPTY
    else
      var front, last := Gather(pkg, lines[..|lines| - 1]), lines[|lines| - 1];
      VersionInfo(CodeIn(pkg, last).GetOr(front.code), NameIn(pkg, last).GetOr(front.name))
  }

  /** The lines up to `k` settle the answer. */
  predicate Decisive(pkg: string, lines: seq<string>, k: int)
    requires 0 <= k < |lines|
  {
    Unreadable(pkg, lines[k]) || Complete(Gather(pkg, lines[..k + 1]))
  }

  predicate Undecided(pkg: string, lines: seq<string>) {
    forall k :: 0 <= k < |lines| ==> !Decisive(pkg, lines, k)
  }

  predicate DecidedAt(pkg: string, lines: seq<string>, k: int) {
    0 <= k < |lines| && Decisive(pkg, lines, k) && forall j :: 0 <= j < k ==> !Decisive(pkg, lines, j)
  }

  function Verdict(pkg: string, lines: seq<string>, k: int): Outcome
    requires 0 <= k < |lines|
  {
    if !Unreadable(pkg, lines[k]) then Parsed(Gather(pkg, lines[..k + 1]))
    else if TrimSpace(lines[k]) == CODE then Panics
    else BadCode
  }

  lemma DecisivePrefix(pkg: string, front: seq<string>, back: seq<string>, k: int)
    requires 0 <= k < |front|
    ensures Decisive(pkg, front + back, k) <==> Decisive(pkg, front, k)
    ensures Verdict(pkg, front + back, k) == Verdict(pkg, front, k)
  {
    assert (front + back)[..k + 1] == front[..k + 1];
  }

  lemma DecidedPrefix(pkg: string, front: seq<string>, back: seq<string>)
    ensures Undecided(pkg, front + back) ==> Undecided(pkg, front)
    ensures forall k :: DecidedAt(pkg, front, k) ==> DecidedAt(pkg, front + back, k)
    ensures forall k :: DecidedAt(pkg, front + back, k) && !Undecided(pkg, front) ==>
      DecidedAt(pkg, front, k) && Verdict(pkg, front + back, k) == Verdict(pkg, front, k)
    ensures forall k :: DecidedAt(pkg, front + back, k) && Undecided(pkg, front) ==> k >= |front|
  {
    forall k | 0 <= k < |front|
      ensures Decisive(pkg, front + back, k) <==> Decisive(pkg, front, k)
      ensures Verdict(pkg, front + back, k) == Verdict(pkg, front, k)
    {
      DecisivePrefix(pkg, front, back, k);
    }
  }

  /** The scan from inside the section, reading on from what `lines` gave. */
  lemma {:induction false} ReadOn(pkg: string, lines: seq<string>, after: seq<string>)
    ensures Undecided(pkg, lines) ==>
      Scan(pkg, true, EMPTY, lines + after) == Scan(pkg, true, Gather(pkg, lines), after)
    ensures forall k :: DecidedAt(pkg, lines, k) ==> Scan(pkg, true, EMPTY, lines + after) == Verdict(pkg, lines, k)
  {
    if lines == [] {
      assert lines + after == after;
    } else {
      var n := |lines| - 1;
      var front, last := lines[..n], lines[n];
      assert lines == front + [last] && lines + after == front + ([last] + after);
      ReadOn(pkg, front, [last] + after);
      DecidedPrefix(pkg, front, [last]);
      if Undecided(pkg, front) { LastLine(pkg, front, last, after); }
    }
  }

  lemma LastLine(pkg: string, front: seq<string>, last: string, after: seq<string>)
    requires Undecided(pkg, front)
    ensures var lines := front + [last];
      Scan(pkg, true, Gather(pkg, front), [last] + after) ==
        if Decisive(pkg, lines, |front|) then Verdict(pkg, lines, |front|)
        else Scan(pkg, true, Gather(pkg, lines), after)
  {
    var lines := front + [last];
    assert lines[..|front|] == front && lines[..|front| + 1] == lines;
    assert ([last] + after)[1..] == after;
    assert !Complete(Gather(pkg, front)) by {
      if front != [] {
        assert front[..|front| - 1 + 1] == front && !Decisive(pkg, front, |front| - 1);
      }
    }
    NotBoth(TrimSpace(last));
    if HasCode(last) { PanicsOnBareCode(last); }
  }

  /** What is reported, on all inputs, without the state of the loop: the section's lines count up to the
      first that is unreadable or completes the version, and the last code and the last name among them
      are the answer. */
  lemma ScanMeaning(pkg: string, before: seq<string>, header: string, body: seq<string>)
    requires (forall l :: l in before ==> !IsHeader(pkg, l)) && IsHeader(pkg, header)
    ensures var r := Scan(pkg, false, EMPTY, before + ([header] + body));
      && (forall k :: DecidedAt(pkg, body, k) ==> r == Verdict(pkg, body, k))
      && (Undecided(pkg, body) ==> r == Finish(Gather(pkg, body)))
  {
    EnterSection(pkg, before, header, body);
    ReadOn(pkg, body, []);
    assert body + [] == body;
  }

  lemma {:induction false} FirstDecisive(pkg: string, lines: seq<string>, k: int) returns (first: int)
    requires 0 <= k < |lines| && Decisive(pkg, lines, k)
    ensures DecidedAt(pkg, lines, first) && first <= k
    decreases k
  {
    if j :| 0 <= j < k && Decisive(pkg, lines, j) {
      first := FirstDecisive(pkg, lines, j);
    } else {
      first := k;
    }
  }

  /** The answer when `after` follows the section. */
  function Answer(pkg: string, before: seq<string>, header: string, sec: seq<string>, after: seq<string>): Outcome {
    Scan(pkg, false, EMPTY, before + ([header] + (sec + after)))
  }

  /** Lines about other packages, with readable codes. */
  predicate Foreign(pkg: string, lines: seq<string>) {
    forall l :: l in lines ==> !IsHeader(pkg, l) && !Unreadable(pkg, l)
  }

  /** When a section alone settles the answer: if and only if one of its lines is decisive. Otherwise
      other packages' lines change it. */
  lemma SectionDecidesIff(pkg: string, before: seq<string>, header: string, sec: seq<string>)
    requires (forall l :: l in before ==> !IsHeader(pkg, l)) && IsHeader(pkg, header)
    ensures (forall after :: Foreign(pkg, after) ==>
               Answer(pkg, before, header, sec, after) == Answer(pkg, before, header, sec, []))
       <==> !Undecided(pkg, sec)
    ensures !Undecided(pkg, sec) ==> forall after ::
      Answer(pkg, before, header, sec, after) == Answer(pkg, before, header, sec, [])
  {
    if Undecided(pkg, sec) {
      var after := Spoiler(pkg, before, header, sec);
    } else {
      var k :| 0 <= k < |sec| && Decisive(pkg, sec, k);
      var first := FirstDecisive(pkg, sec, k);
      forall after
        ensures Answer(pkg, before, header, sec, after) == Verdict(pkg, sec, first)
      {
        EnterSection(pkg, before, header, sec + after);
        ReadOn(pkg, sec, after);
      }
    }
  }

  /** One line about another package is enough. */
  lemma Spoiler(pkg: string, before: seq<string>, header: string, sec: seq<string>) returns (after: seq<string>)
    requires (forall l :: l in before ==> !IsHeader(pkg, l)) && IsHeader(pkg, header) && Undecided(pkg, sec)
    ensures Foreign(pkg, after)
    ensures Answer(pkg, before, header, sec, after) != Answer(pkg, before, header, sec, [])
  {
    var seven, eight, g := "versionCode=7", "versionCode=8", Gather(pkg, sec);
    NoHeader(pkg, seven); NoHeader(pkg, eight);
    CodeLine(pkg, seven, "7", 7); CodeLine(pkg, eight, "8", 8);
    var code, line := if g.code == 7 then 8 else 7, if g.code == 7 then eight else seven;
    after := [line];
    EnterSection(pkg, before, header, sec + after);
    ReadOn(pkg, sec, after);
    ScanMeaning(pkg, before, header, sec);
    assert sec + [] == sec && after + [] == after;
    StepInside(pkg, g, line, []);
  }

  /** A section that is not decisive reads on into whatever follows. The answer is then made of the
      section's lines and the following ones up to the first decisive one. The section's own answer is
      given if and only if nothing that follows is decisive and the last code of all is the section's. */
  lemma MissingNameReadsOn(pkg: string, before: seq<string>, header: string, sec: seq<string>, after: seq<string>)
    requires (forall l :: l in before ==> !IsHeader(pkg, l)) && IsHeader(pkg, header) && Undecided(pkg, sec)
    ensures var r, all := Answer(pkg, before, header, sec, after), sec + after;
      && (forall k :: DecidedAt(pkg, all, k) ==> k >= |sec| && r == Verdict(pkg, all, k))
      && (Undecided(pkg, all) ==> r == Finish(Gather(pkg, all)))
      && (r == Finish(Gather(pkg, sec)) <==> Undecided(pkg, all) && Gather(pkg, all).code == Gather(pkg, sec).code)
  {
    var all := sec + after;
    ScanMeaning(pkg, before, header, all);
    DecidedPrefix(pkg, sec, after);
    UndecidedIncomplete(pkg, sec);
    if Undecided(pkg, all) {
      UndecidedIncomplete(pkg, all);
    } else {
      var k :| 0 <= k < |all| && Decisive(pkg, all, k);
      var first := FirstDecisive(pkg, all, k);
      assert Verdict(pkg, all, first) != Finish(Gather(pkg, sec));
    }
  }

  lemma UndecidedIncomplete(pkg: string, lines: seq<string>)
    requires Undecided(pkg, lines)
    ensures !Complete(Gather(pkg, lines))
  {
    if lines != [] {
      assert lines[..|lines| - 1 + 1] == lines && !Decisive(pkg, lines, |lines| - 1);
    }
  }

  predicate Nameless(pkg: string, lines: seq<string>) {
    forall l :: l in lines ==> NameIn(pkg, l).GetOr("") == ""
  }

  predicate Codeless(pkg: string, lines: seq<string>) {
    forall l :: l in lines ==> CodeIn(pkg, l).GetOr(0) == 0
  }

  /** A readable section that lacks a name, or that lacks a code, is never decisive. */
  lemma {:induction false} IncompleteSection(pkg: string, sec: seq<string>)
    requires forall l :: l in sec ==> !Unreadable(pkg, l)
    requires Nameless(pkg, sec) || Codeless(pkg, sec)
    ensures Undecided(pkg, sec)
    ensures Nameless(pkg, sec) ==> Gather(pkg, sec).name == ""
    ensures Codeless(pkg, sec) ==> Gather(pkg, sec).code == 0
  {
    if sec == [] {
    } else {
      var n := |sec| - 1;
      assert sec[n] in sec && forall l :: l in sec[..n] ==> l in sec;
      IncompleteSection(pkg, sec[..n]);
      forall k | 0 <= k < |sec| ensures !Decisive(pkg, sec, k) {
        assert sec[k] in sec;
        if k < n {
          assert sec[..n][..k + 1] == sec[..k + 1] && !Decisive(pkg, sec[..n], k);
        } else {
          assert sec[..k + 1] == sec;
        }
      }
    }
  }

  /** The unguarded index is out of range exactly on a line that is `versionCode=` and nothing else. */
  lemma PanicsOnBareCode(line: string)
    requires HasCode(line)
    ensures CodeField(line) == "" <==> TrimSpace(line) == CODE
  {
    var rest := TrimSpace(line)[|CODE|..];
    TrimSpaceEnds(line);
    if rest != "" {
      TrimLeftKeeps(rest);
      TrimLeftEnds(rest);
    }
  }

  predicate FirstHeader(pkg: string, lines: seq<string>, h: int) {
    0 <= h < |lines| && IsHeader(pkg, lines[h]) && forall j :: 0 <= j < h ==> !IsHeader(pkg, lines[j])
  }

  /** The section opened by line `h` is decided by a line that is `versionCode=` and nothing else. */
  predicate BareCodeDecides(pkg: string, lines: seq<string>, h: int, k: int) {
    && FirstHeader(pkg, lines, h) && DecidedAt(pkg, lines[h + 1..], k)
    && TrimSpace(lines[h + 1..][k]) == CODE
  }

  lemma {:induction false} HeaderOrNone(pkg: string, lines: seq<string>, n: nat) returns (h: int)
    requires n <= |lines|
    ensures FirstHeader(pkg, lines, h) || forall j :: 0 <= j < n ==> !IsHeader(pkg, lines[j])
  {
    if n == 0 {
      h := 0;
    } else {
      h := HeaderOrNone(pkg, lines, n - 1);
      if !FirstHeader(pkg, lines, h) { h := n - 1; }
    }
  }

  /** The parse panics if and only if the first decisive line after the first header is a bare
      `versionCode=`. */
  lemma PanicsIff(pkg: string, lines: seq<string>)
    ensures Scan(pkg, false, EMPTY, lines) == Panics
       <==> exists h, k :: BareCodeDecides(pkg, lines, h, k)
  {
    var h := HeaderOrNone(pkg, lines, |lines|);
    if !FirstHeader(pkg, lines, h) {
      SkipBefore(pkg, lines, []);
      assert lines + [] == lines;
    } else {
      var body := lines[h + 1..];
      assert lines == lines[..h] + ([lines[h]] + body);
      ScanMeaning(pkg, lines[..h], lines[h], body);
      forall k | DecidedAt(pkg, body, k) ensures Verdict(pkg, body, k) == Panics <==> TrimSpace(body[k]) == CODE {
        if TrimSpace(body[k]) == CODE { BareIsUnreadable(pkg, body[k]); }
      }
      if !Undecided(pkg, body) {
        var k :| 0 <= k < |body| && Decisive(pkg, body, k);
        var first := FirstDecisive(pkg, body, k);
        if TrimSpace(body[first]) == CODE { assert BareCodeDecides(pkg, lines, h, first); }
      }
    }
  }

  lemma BareIsUnreadable(pkg: string, line: string)
    requires TrimSpace(line) == CODE
    ensures Unreadable(pkg, line)
  {
    assert CODE[0] == 'v' && ("Package [" + pkg + "]")[0] == 'P';
    assert CODE[|CODE|..] == "";
  }

  lemma BareSectionPanics(pkg: string, header: string, bare: string, lines: seq<string>)
    requires IsHeader(pkg, header) && TrimSpace(bare) == CODE && lines == [header, bare]
    ensures Scan(pkg, false, EMPTY, lines) == Panics
  {
    BareIsUnreadable(pkg, bare);
    var body := lines[0 + 1..];
    assert body == [bare] && Decisive(pkg, body, 0);
    assert BareCodeDecides(pkg, lines, 0, 0);
    PanicsIff(pkg, lines);
  }

  /** Concretely: the output of two lines on which the parse panics, whatever the package. */
  lemma PanicWitness(pkg: string, header: string)
    requires header == "Package [" + pkg + "]" && '\n' !in pkg && |header| < MAX_SCAN_TOKEN
    ensures Parse(pkg, Terminated([header, CODE])) == Panics
  {
    var lines := [header, CODE];
    assert header[|header| - 1] == ']' && header[0] == 'P';
    TrimmedIsFixed(header);
    TrimmedIsFixed(CODE);
    PrintedLines(pkg, lines);
    BareSectionPanics(pkg, header, CODE, lines);
  }

  lemma {:induction false} TrimLeftKeeps(s: string)
    requires s != "" && !IsSpace(s[|s| - 1])
    ensures TrimLeft(s) != ""
  {
    if IsSpace(s[0]) {
      TrimLeftKeeps(s[1..]);
    }
  }

  lemma CodeLine(pkg: string, line: string, digit: string, code: int)
    requires 1 <= code <= 9 && digit == Itoa(code) && line == CODE + digit && !IsHeader(pkg, line)
    ensures GoodCode(pkg, line, code)
  {
    AtoiItoa(code);
    TrimmedIsFixed(line);
    assert line[|CODE|..] == digit && TakeWord(digit) == digit;
  }

  lemma NameLine(pkg: string, line: string, name: string)
    requires name == "x" && line == NAME + name && !IsHeader(pkg, line)
    ensures GoodName(pkg, line, name)
  {
    TrimmedIsFixed(line);
    NotBoth(line);
    assert line[|NAME|..] == name;
  }

  lemma OtherLine(pkg: string, line: string)
    requires line != "" && line[0] == 'P' && line[|line| - 1] == ']'
    ensures Quiet(line) && (IsHeader(pkg, line) <==> HasPrefix(line, "Package [" + pkg + "]"))
  {
    TrimmedIsFixed(line);
    assert CODE[0] == NAME[0] == 'v';
  }

  lemma NoHeader(pkg: string, line: string)
    requires line != "" && line[0] == 'v' && !IsSpace(line[|line| - 1])
    ensures !IsHeader(pkg, line)
  {
    TrimmedIsFixed(line);
    assert ("Package [" + pkg + "]")[0] == 'P';
  }

  lemma WrongSectionLines(pkg: string, l0: string, l1: string, l2: string, l3: string, l4: string)
    requires IsHeader(pkg, l0) && Quiet(l2) && !IsHeader(pkg, l2)
    requires GoodCode(pkg, l1, 5) && GoodCode(pkg, l3, 9) && GoodName(pkg, l4, "x")
    ensures Scan(pkg, false, EMPTY, [l0, l1, l2, l3, l4]) == Parsed(VersionInfo(9, "x"))
  {
    var tail := [l2] + ([l3] + ([l4] + []));
    assert [l0, l1, l2, l3, l4][1..] == [l1] + tail;
    StepInside(pkg, EMPTY, l1, tail);
    SkipQuiet(pkg, VersionInfo(5, ""), [l2], [l3] + ([l4] + []));
    StepInside(pkg, VersionInfo(5, ""), l3, [l4] + []);
    StepInside(pkg, VersionInfo(9, ""), l4, []);
  }

  lemma PrintedLines(pkg: string, lines: seq<string>)
    requires Printable(lines)
    ensures Parse(pkg, Terminated(lines)) == Scan(pkg, false, EMPTY, lines)
  {
    ScannedPrefix(lines, "");
    assert lines + [] == lines && Terminated(lines) + "" == Terminated(lines);
  }

  predicate FiveLines(l0: string, l1: string, l2: string, l3: string, l4: string) {
    && l0 == "Package [a.b]" && l1 == "versionCode=5"
    && l2 == "Package [c.d]" && l3 == "versionCode=9" && l4 == "versionName=x"
  }

  lemma FiveLinesMeaning(l0: string, l1: string, l2: string, l3: string, l4: string)
    requires FiveLines(l0, l1, l2, l3, l4)
    ensures Scan("a.b", false, EMPTY, [l0, l1, l2, l3, l4]) == Parsed(VersionInfo(9, "x"))
  {
    var pkg := "a.b";
    NoHeader(pkg, l1); NoHeader(pkg, l3); NoHeader(pkg, l4);
    CodeLine(pkg, l1, "5", 5); CodeLine(pkg, l3, "9", 9); NameLine(pkg, l4, "x");
    OtherLine(pkg, l0); OtherLine(pkg, l2);
    assert "Package [" + pkg + "]" == l0 && l0[9] != l2[9];
    WrongSectionLines(pkg, l0, l1, l2, l3, l4);
  }

  lemma FiveLinesPrintable(l0: string, l1: string, l2: string, l3: string, l4: string)
    requires FiveLines(l0, l1, l2, l3, l4)
    ensures Printable([l0, l1, l2, l3, l4])
  {
  }

  /** Concretely: output for which the code of the package listed next is reported for the one asked about. */
  lemma WrongSectionWitness(l0: string, l1: string, l2: string, l3: string, l4: string)
    requires FiveLines(l0, l1, l2, l3, l4)
    ensures Parse("a.b", Terminated([l0, l1, l2, l3, l4])) == Parsed(VersionInfo(9, "x"))
  {
    FiveLinesMeaning(l0, l1, l2, l3, l4);
    FiveLinesPrintable(l0, l1, l2, l3, l4);
    PrintedLines("a.b", [l0, l1, l2, l3, l4]);
  }

  // Round trips on output text, in terms of what the device prints.

  /** What surrounds the essential part of a printed line. */
  datatype Layout = Layout(left: string, gap: string, tail: string)

  function HeaderText(left: string, pkg: string, tail: string): string {
    left + ("Package [" + pkg + "]") + tail
  }

  function CodeText(left: string, gap: string, word: string, tail: string): string {
    left + ("versionCode=" + gap + word) + tail
  }

  function NameText(left: string, name: string, right: string): string {
    left + ("versionName=" + name) + right
  }

  predicate Spaceless(s: string) {
    forall c :: c in s ==> !IsSpace(c)
  }

  predicate EndsWord(tail: string) {
    tail == "" || IsSpace(tail[0])
  }

  lemma {:induction false} TakeWordStops(word: string, tail: string)
    requires Spaceless(word) && EndsWord(tail)
    ensures TakeWord(word + tail) == word
  {
    if word == "" {
      assert word + tail == tail;
    } else {
      assert word[0] in word && (word + tail)[1..] == word[1..] + tail;
      TakeWordStops(word[1..], tail);
    }
  }

  lemma PrintedHeader(pkg: string, left: string, tail: string)
    requires AllSpace(left)
    ensures IsHeader(pkg, HeaderText(left, pkg, tail))
  {
    var front := "Package [" + pkg + "]";
    assert front[0] == 'P' && front[|front| - 1] == ']';
    TrimKeepsFront(left, front, tail);
  }

  /** A code line gives its first word, however it is padded and whatever follows the word. */
  lemma PrintedCode(pkg: string, left: string, gap: string, word: string, tail: string)
    requires AllSpace(left) && AllSpace(gap) && word != "" && Spaceless(word) && EndsWord(tail)
    ensures var line := CodeText(left, gap, word, tail);
      HasCode(line) && !IsHeader(pkg, line) && CodeField(line) == word
  {
    var front, line := CODE + gap + word, CodeText(left, gap, word, tail);
    assert word[0] in word && word[|word| - 1] in word;
    assert front[0] == 'v' && front[|front| - 1] == word[|word| - 1];
    TrimKeepsFront(left, front, tail);
    var t := TrimRight(tail);
    TrimRightEnds(tail);
    assert t == "" || t[0] == tail[0];
    assert TrimSpace(line)[|CODE|..] == gap + (word + t);
    TrimLeftSkips(gap, word + t);
    TakeWordStops(word, t);
    assert ("Package [" + pkg + "]")[0] == 'P';
  }

  function Cut(name: string): string {
    if |name| > 128 then name[..128] else name
  }

  lemma PrintedName(pkg: string, left: string, name: string, right: string)
    requires AllSpace(left) && AllSpace(right) && name != "" && !IsSpace(name[|name| - 1])
    ensures var line := NameText(left, name, right);
      HasName(line) && !HasCode(line) && !IsHeader(pkg, line) && NameField(line) == Cut(name)
  {
    var front, line := NAME + name, NameText(left, name, right);
    assert front[0] == 'v' && front[|front| - 1] == name[|name| - 1];
    TrimPadded(left, front, right);
    NotBoth(front);
    assert TrimSpace(line) == front && front[|NAME|..] == name;
    assert ("Package [" + pkg + "]")[0] == 'P';
  }

  /** Lines that do not open the package's section. */
  predicate Elsewhere(pkg: string, lines: seq<string>) {
    forall l :: l in lines ==> !HasPrefix(TrimSpace(l), "Package [" + pkg + "]")
  }

  /** Lines that mention no version. */
  predicate Unrelated(lines: seq<string>) {
    forall l :: l in lines ==>
      !HasPrefix(TrimSpace(l), "versionCode=") && !HasPrefix(TrimSpace(l), "versionName=")
  }

  lemma ItoaSpaceless(n: int)
    ensures Itoa(n) != "" && Spaceless(Itoa(n))
  {
    ItoaNatDigits(Abs(n));
    forall c | c in Itoa(n) ensures !IsSpace(c) {
      assert c == '-' || c in ItoaNat(Abs(n));
    }
  }

  function Section(header: string, q1: seq<string>, first: string, q2: seq<string>, second: string): seq<string> {
    [header] + (q1 + ([first] + (q2 + [second])))
  }

  /** Parsing undoes printing. On output in which the package's section prints a code, up to the end of its
      line or followed by white space and anything, and a name, in either order and with any other lines
      between, the answer is that code and that name, cut to 128 bytes; whatever precedes the section and
      whatever text follows. */
  lemma VersionRoundTrip(pkg: string, before: seq<string>, h: Layout, q1: seq<string>, q2: seq<string>,
                         n: int, c: Layout, name: string, m: Layout, codeFirst: bool,
                         rest: string)
    requires n != 0 && InInt64(n) && name != "" && !IsSpace(name[|name| - 1])
    requires AllSpace(h.left) && AllSpace(c.left) && AllSpace(c.gap) && EndsWord(c.tail)
    requires AllSpace(m.left) && AllSpace(m.tail)
    requires Elsewhere(pkg, before) && Unrelated(q1) && Unrelated(q2)
    requires var code, named := CodeText(c.left, c.gap, Itoa(n), c.tail), NameText(m.left, name, m.tail);
      Printable(before + Section(HeaderText(h.left, pkg, h.tail), q1, if codeFirst then code else named, q2,
                                 if codeFirst then named else code))
    ensures var code, named := CodeText(c.left, c.gap, Itoa(n), c.tail), NameText(m.left, name, m.tail);
      var section := Section(HeaderText(h.left, pkg, h.tail), q1, if codeFirst then code else named, q2,
                             if codeFirst then named else code);
      Parse(pkg, Terminated(before + section) + rest) == Parsed(VersionInfo(n, Cut(name)))
  {
    var code, named := CodeText(c.left, c.gap, Itoa(n), c.tail), NameText(m.left, name, m.tail);
    var header := HeaderText(h.left, pkg, h.tail);
    ItoaSpaceless(n);
    AtoiItoa(n);
    PrintedHeader(pkg, h.left, h.tail);
    PrintedCode(pkg, c.left, c.gap, Itoa(n), c.tail);
    PrintedName(pkg, m.left, name, m.tail);
    assert GoodCode(pkg, code, n) && GoodName(pkg, named, Cut(name)) && Cut(name) != "";
    if codeFirst {
      SectionLocal(pkg, before, header, q1, code, q2, named, rest, n, Cut(name));
    } else {
      SectionLocal(pkg, before, header, q1, named, q2, code, rest, n, Cut(name));
    }
  }

  /** A section with a code but no name, up to the end of the output, gives the code and an empty name. */
  lemma CodeAlone(pkg: string, before: seq<string>, h: Layout, q1: seq<string>, q2: seq<string>, n: int, c: Layout)
    requires n != 0 && InInt64(n) && AllSpace(h.left) && AllSpace(c.left) && AllSpace(c.gap) && EndsWord(c.tail)
    requires Elsewhere(pkg, before) && Unrelated(q1) && Unrelated(q2)
    ensures var header, code := HeaderText(h.left, pkg, h.tail), CodeText(c.left, c.gap, Itoa(n), c.tail);
      Scan(pkg, false, EMPTY, before + ([header] + (q1 + ([code] + q2)))) == Parsed(VersionInfo(n, ""))
  {
    var header, code := HeaderText(h.left, pkg, h.tail), CodeText(c.left, c.gap, Itoa(n), c.tail);
    ItoaSpaceless(n);
    AtoiItoa(n);
    PrintedHeader(pkg, h.left, h.tail);
    PrintedCode(pkg, c.left, c.gap, Itoa(n), c.tail);
    EnterSection(pkg, before, header, q1 + ([code] + q2));
    SkipQuiet(pkg, EMPTY, q1, [code] + q2);
    StepInside(pkg, EMPTY, code, q2);
    QuietEnd(pkg, VersionInfo(n, ""), q2);
  }

  /** A section that mentions no version, or no section at all, gives nothing. */
  lemma NothingReported(pkg: string, before: seq<string>, h: Layout, q: seq<string>)
    requires AllSpace(h.left) && Elsewhere(pkg, before) && Unrelated(q)
    ensures Scan(pkg, false, EMPTY, before + ([HeaderText(h.left, pkg, h.tail)] + q)) == NotFound
    ensures Scan(pkg, false, EMPTY, before) == NotFound
  {
    PrintedHeader(pkg, h.left, h.tail);
    EnterSection(pkg, before, HeaderText(h.left, pkg, h.tail), q);
    QuietEnd(pkg, EMPTY, q);
    SkipBefore(pkg, before, []);
    assert before + [] == before;
  }

  lemma PrintedNumber()
    ensures Itoa(1042) == "1042"
  {
    assert ItoaNat(10) == "10" && ItoaNat(104) == "104";
  }

  /** The output that the code's own comment quotes. */
  lemma QuotedOutput(pkg: string, header: string, code: string, named: string, tail: string, name: string)
    requires tail == " minSdk=21 targetSdk=33" && name == "1.0.4"
    requires header == "Package [" + pkg + "]" && code == "versionCode=1042" + tail && named == "versionName=" + name
    requires Printable([header, code, named])
    ensures Parse(pkg, Terminated([header, code, named])) == Parsed(VersionInfo(1042, name))
  {
    QuotedShape(pkg, header, code, named, tail, name);
    assert [] + [header, code, named] == [header, code, named];
    var plain := Layout("", "", "");
    VersionRoundTrip(pkg, [], plain, [], [], 1042, Layout("", "", tail), name, plain, true, "");
    assert Terminated([header, code, named]) + "" == Terminated([header, code, named]);
  }

  lemma QuotedShape(pkg: string, header: string, code: string, named: string, tail: string, name: string)
    requires header == "Package [" + pkg + "]" && code == "versionCode=1042" + tail && named == "versionName=" + name
    ensures HeaderText("", pkg, "") == header && NameText("", name, "") == named
    ensures CodeText("", "", Itoa(1042), tail) == code
    ensures Section(header, [], code, [], named) == [header, code, named]
  {
    PrintedNumber();
    assert "versionCode=" + "" + "1042" == "versionCode=1042";
  }

  lemma QuietEnd(pkg: string, info: VersionInfo, lines: seq<string>)
    requires AllQuiet(lines) && !Complete(info)
    ensures Scan(pkg, true, info, lines) == Finish(info)
  {
    SkipQuiet(pkg, info, lines, []);
    assert lines + [] == lines;
  }

  /** A first word that is no number within 64 bits fails the parse. */
  lemma UnreadableWord(pkg: string, before: seq<string>, h: Layout, q1: seq<string>, word: string,
                       c: Layout, after: seq<string>)
    requires word != "" && Spaceless(word) && forall n: int :: InInt64(n) ==> !Writes(word, n)
    requires AllSpace(h.left) && AllSpace(c.left) && AllSpace(c.gap) && EndsWord(c.tail)
    requires Elsewhere(pkg, before) && Unrelated(q1)
    ensures var header, code := HeaderText(h.left, pkg, h.tail), CodeText(c.left, c.gap, word, c.tail);
      Scan(pkg, false, EMPTY, before + ([header] + (q1 + ([code] + after)))) == BadCode
  {
    var header, code := HeaderText(h.left, pkg, h.tail), CodeText(c.left, c.gap, word, c.tail);
    PrintedHeader(pkg, h.left, h.tail);
    PrintedCode(pkg, c.left, c.gap, word, c.tail);
    if Atoi(word).Some? { AtoiIff(word, Atoi(word).value); }
    EnterSection(pkg, before, header, q1 + ([code] + after));
    SkipQuiet(pkg, EMPTY, q1, [code] + after);
    StepInside(pkg, EMPTY, code, after);
  }

  /** Nothing is scanned from the first line of 65536 bytes or more on. */
  lemma OverlongStops(lines: seq<string>, long: string, rest: string)
    requires Printable(lines) && '\n' !in long && |long| >= 65536
    ensures ScannedLines(Terminated(lines) + (long + ['\n'] + rest)) == lines
  {
    ScannedPrefix(lines, long + ['\n'] + rest);
    SplitCons(long, rest, '\n');
    var parts := WithoutEmptyLast([long] + Split(rest, '\n'));
    assert parts != [] && parts[0] == long;
    assert lines + [] == lines;
  }

  // pm path

  const PACKAGE := "package:"

  function PathOf(line: string): Option<string> {
    var trimmed := TrimSpace(line);
    if HasPrefix(trimmed, PACKAGE) && TrimSpace(trimmed[|PACKAGE|..]) != ""
    then Some(TrimSpace(trimmed[|PACKAGE|..])) else None
  }

  function PathsOf(lines: seq<string>): seq<string> {
    if lines == [] then []
    else (if PathOf(lines[0]).Some? then [PathOf(lines[0]).value] else []) + PathsOf(lines[1..])
  }

  /** The paths listed, or none when nothing is listed: the code then reports an error. */
  method ParsePMPaths(output: string) returns (r: Option<seq<string>>)
    ensures r == var paths := PathsOf(Split(output, '\n')); if paths == [] then None else Some(paths)
  {
    var paths := [];
    var lines := Split(output, '\n');
    for i := 0 to |lines|
      invariant PathsOf(lines) == paths + PathsOf(lines[i..])
    {
      assert lines[i..][0] == lines[i] && lines[i..][1..] == lines[i + 1..];
      var line := TrimSpace(lines[i]);
      if HasPrefix(line, PACKAGE) {
        var p := TrimSpace(line[|PACKAGE|..]);
        if p != "" {
          paths := paths + [p];
        }
      }
    }
    assert lines[|lines|..] == [] && paths + [] == paths;
    r := if paths == [] then None else Some(paths);
  }

  /** One line of `pm path` output as the device prints it: a path, in any white space, or something else,
      which may be an empty `package:`. */
  datatype Printed = Path(left: string, gap: string, path: string, right: string) | Noise(text: string) {
    function Line(): string {
      match this
      case Path(left, gap, path, right) => left + ("package:" + (gap + path)) + right
      case Noise(text) => text
    }

    predicate WellFormed() {
      && '\n' !in Line()
      && match this
         case Path(left, gap, path, right) => Trimmed(path) && AllSpace(left) && AllSpace(gap) && AllSpace(right)
         case Noise(text) => !HasPrefix(TrimSpace(text), "package:") || TrimSpace(text) == "package:"
    }
  }

  function Lines(printed: seq<Printed>): seq<string> {
    seq(|printed|, i requires 0 <= i < |printed| => printed[i].Line())
  }

  function ListedPaths(printed: seq<Printed>): seq<string> {
    if printed == [] then []
    else (if printed[0].Path? then [printed[0].path] else []) + ListedPaths(printed[1..])
  }

  lemma PathOfPrinted(p: Printed)
    requires p.WellFormed()
    ensures PathOf(p.Line()) == if p.Path? then Some(p.path) else None
  {
    if p.Path? {
      var front := PACKAGE + (p.gap + p.path);
      assert front[0] == 'p' && front[|front| - 1] == p.path[|p.path| - 1];
      TrimPadded(p.left, front, p.right);
      assert front[|PACKAGE|..] == p.gap + p.path && p.gap + p.path + "" == p.gap + p.path;
      TrimPadded(p.gap, p.path, "");
    } else if TrimSpace(p.text) == PACKAGE {
      assert PACKAGE[|PACKAGE|..] == "";
    }
  }

  lemma {:induction false} PathsOfPrinted(printed: seq<Printed>)
    requires forall p :: p in printed ==> p.WellFormed()
    ensures PathsOf(Lines(printed)) == ListedPaths(printed)
  {
    if printed == [] {
    } else {
      var p := printed[0];
      assert p in printed;
      assert Lines(printed)[1..] == Lines(printed[1..]);
      PathsOfPrinted(printed[1..]);
      PathOfPrinted(p);
    }
  }

  /** Parsing undoes printing: the printed paths come back in order, with any other lines between. */
  lemma PMPathsRoundTrip(printed: seq<Printed>)
    requires printed != [] && forall p :: p in printed ==> p.WellFormed()
    ensures PathsOf(Split(Join(Lines(printed), '\n'), '\n')) == ListedPaths(printed)
  {
    forall l | l in Lines(printed) ensures '\n' !in l {
      var i :| 0 <= i < |printed| && printed[i].Line() == l;
      assert printed[i].WellFormed();
    }
    SplitJoin(Lines(printed), '\n');
    PathsOfPrinted(printed);
  }
}
