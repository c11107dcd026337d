/** Byte strings and the string helpers of the Go standard library that the service relies on.
    A `char` stands for one byte. */
module Text {
  datatype Option<+T> = None | Some(value: T) {
    function GetOr(default: T): T {
      if None? then default else value
    }
  }

  predicate IsSpace(c: char) {
    c == ' ' || 9 <= c as int <= 13
  }

  function TrimLeft(s: string): string {
    if s != "" && IsSpace(s[0]) then TrimLeft(s[1..]) else s
  }

  function TrimRight(s: string): string {
    if s != "" && IsSpace(s[|s| - 1]) then TrimRight(s[..|s| - 1]) else s
  }

  function TrimSpace(s: string): string {
    TrimRight(TrimLeft(s))
  }

  predicate HasPrefix(s: string, prefix: string) {
    prefix <= s
  }

  predicate HasSuffix(s: string, suffix: string) {
    |suffix| <= |s| && s[|s| - |suffix|..] == suffix
  }

  function TrimSuffix(s: string, suffix: string): string {
    if HasSuffix(s, suffix) then s[..|s| - |suffix|] else s
  }

  function TrimPrefix(s: string, prefix: string): string {
    if HasPrefix(s, prefix) then s[|prefix|..] else s
  }

  function Split(s: string, sep: char): (parts: seq<string>)
    ensures parts != []
  {
    if s == "" then [""]
    else if s[0] == sep then [""] + Split(s[1..], sep)
    else var rest := Split(s[1..], sep); [[s[0]] + rest[0]] + rest[1..]
  }

  function Join(parts: seq<string>, sep: char): string {
    if parts == [] then ""
    else if |parts| == 1 then parts[0]
    else parts[0] + [sep] + Join(parts[1..], sep)
  }

  ghost predicate Distinct<T>(s: seq<T>) {
    forall i, j :: 0 <= i < j < |s| ==> s[i] != s[j]
  }

  lemma Assoc<T>(a: seq<T>, b: seq<T>, c: seq<T>)
    ensures (a + b) + c == a + (b + c)
  {
  }

  /** A part without separators in front of a separator is split off whole. */
  lemma {:induction false} SplitCons(part: string, rest: string, sep: char)
    requires sep !in part
    ensures Split(part + [sep] + rest, sep) == [part] + Split(rest, sep)
  {
    var s := part + [sep] + rest;
    if part == "" {
      assert s[1..] == rest;
    } else {
      assert s[1..] == part[1..] + [sep] + rest;
      SplitCons(part[1..], rest, sep);
      assert [part[0]] + part[1..] == part;
    }
  }

  lemma {:induction false} SplitWhole(part: string, sep: char)
    requires sep !in part
    ensures Split(part, sep) == [part]
  {
    if part == "" {
    } else {
      SplitWhole(part[1..], sep);
      assert part == [part[0]] + part[1..];
    }
  }

  lemma {:induction false} SplitJoin(parts: seq<string>, sep: char)
    requires parts != [] && forall p :: p in parts ==> sep !in p
    ensures Split(Join(parts, sep), sep) == parts
  {
    if |parts| == 1 {
      SplitWhole(parts[0], sep);
    } else {
      SplitJoin(parts[1..], sep);
      SplitCons(parts[0], Join(parts[1..], sep), sep);
    }
  }

  /** Trimming leaves a string alone when neither end is white space. */
  lemma TrimmedIsFixed(s: string)
    requires s != "" ==> !IsSpace(s[0]) && !IsSpace(s[|s| - 1])
    ensures TrimSpace(s) == s
  {
  }

  lemma {:induction false} TrimRightEnds(s: string)
    ensures var t := TrimRight(s); t <= s && (t != "" ==> !IsSpace(t[|t| - 1]))
  {
    if s != "" && IsSpace(s[|s| - 1]) {
      TrimRightEnds(s[..|s| - 1]);
    }
  }

  lemma {:induction false} TrimLeftEnds(s: string)
    ensures var t := TrimLeft(s); t != "" ==> !IsSpace(t[0])
    decreases |s|
  {
    if s != "" && IsSpace(s[0]) {
      TrimLeftEnds(s[1..]);
    }
  }

  lemma TrimSpaceEnds(s: string)
    ensures var t := TrimSpace(s); t != "" ==> !IsSpace(t[0]) && !IsSpace(t[|t| - 1])
  {
    TrimLeftEnds(s);
    TrimRightEnds(TrimLeft(s));
  }

  predicate AllSpace(s: string) {
    forall c :: c in s ==> IsSpace(c)
  }

  /** Neither empty nor beginning or ending in white space. */
  predicate Trimmed(s: string) {
    s != "" && !IsSpace(s[0]) && !IsSpace(s[|s| - 1])
  }

  lemma {:induction false} TrimLeftSkips(pad: string, s: string)
    requires AllSpace(pad) && (s == "" || !IsSpace(s[0]))
    ensures TrimLeft(pad + s) == s
  {
    if pad == "" {
      assert pad + s == s;
    } else {
      assert pad[0] in pad && (pad + s)[1..] == pad[1..] + s;
      TrimLeftSkips(pad[1..], s);
    }
  }

  lemma {:induction false} TrimRightStops(s: string, tail: string)
    requires s == "" || !IsSpace(s[|s| - 1])
    ensures TrimRight(s + tail) == s + TrimRight(tail)
    decreases |tail|
  {
    if tail == "" {
      assert s + tail == s;
    } else if IsSpace(tail[|tail| - 1]) {
      var front := tail[..|tail| - 1];
      assert (s + tail)[..|s + tail| - 1] == s + front;
      TrimRightStops(s, front);
    }
  }

  lemma {:induction false} TrimRightAll(pad: string)
    requires AllSpace(pad)
    ensures TrimRight(pad) == ""
  {
    if pad == "" {
    } else {
      assert pad[|pad| - 1] in pad;
      TrimRightAll(pad[..|pad| - 1]);
    }
  }

  /** Trimming takes white space off both ends and nothing else; so it is known on all strings. */
  lemma TrimPadded(left: string, s: string, right: string)
    requires AllSpace(left) && AllSpace(right) && (s == "" || Trimmed(s))
    ensures TrimSpace(left + s + right) == s
  {
    TrimRightAll(right);
    if s == "" {
      var pad := left + right;
      TrimLeftSkips(pad, "");
      assert left + s + right == pad && pad + "" == pad;
    } else {
      assert left + s + right == left + (s + right);
      TrimLeftSkips(left, s + right);
      TrimRightStops(s, right);
    }
  }

  /** Trimming a line keeps what it begins with, and trims what follows. */
  lemma TrimKeepsFront(left: string, front: string, tail: string)
    requires AllSpace(left) && Trimmed(front)
    ensures TrimSpace(left + front + tail) == front + TrimRight(tail)
  {
    assert left + front + tail == left + (front + tail);
    TrimLeftSkips(left, front + tail);
    TrimRightStops(front, tail);
  }

  // Decimal numbers, as strconv.Itoa writes and strconv.Atoi reads them.

  const MIN_INT64: int := -0x8000_0000_0000_0000
  const MAX_INT64: int := 0x7FFF_FFFF_FFFF_FFFF

  predicate InInt64(n: int) {
    MIN_INT64 <= n <= MAX_INT64
  }

  predicate IsDigit(c: char) {
    48 <= c as int <= 57
  }

  function DigitChar(d: nat): char
    requires d < 10
  {
    (48 + d) as char
  }

  function ItoaNat(n: nat): (s: string)
    ensures s != ""
  {
    if n < 10 then [DigitChar(n)] else ItoaNat(n / 10) + [DigitChar(n % 10)]
  }

  function Itoa(n: int): string {
    if n < 0 then "-" + ItoaNat(-n) else ItoaNat(n)
  }

  function DigitsValue(s: string): int
    requires forall c :: c in s ==> IsDigit(c)
  {
    if s == "" then 0
    else
      assert s[|s| - 1] in s;
      DigitsValue(s[..|s| - 1]) * 10 + (s[|s| - 1] as int - 48)
  }

  function Atoi(s: string): Option<int> {
    var signed := s != "" && (s[0] == '-' || s[0] == '+');
    var digits := if signed then s[1..] else s;
    if digits == "" || exists c :: c in digits && !IsDigit(c) then None
    else
      var v: int := if signed && s[0] == '-' then -DigitsValue(digits) else DigitsValue(digits);
      if InInt64(v) then Some(v) else None
  }

  lemma {:induction false} ItoaNatDigits(n: nat)
    ensures forall c :: c in ItoaNat(n) ==> IsDigit(c)
    ensures DigitsValue(ItoaNat(n)) == n
  {
    var s := ItoaNat(n);
    if n < 10 {
      assert s[..0] == "";
    } else {
      ItoaNatDigits(n / 10);
      assert s[..|s| - 1] == ItoaNat(n / 10);
    }
  }

  /** Reading back a printed 64-bit number gives the number; so printing is injective. */
  lemma AtoiItoa(n: int)
    requires InInt64(n)
    ensures Atoi(Itoa(n)) == Some(n)
  {
    ItoaNatDigits(if n < 0 then -n else n);
    if n < 0 {
      assert Itoa(n)[1..] == ItoaNat(-n);
    } else {
      assert ItoaNat(n)[0] in ItoaNat(n);
    }
  }

  function Zeros(k: nat): string {
    seq(k, _ => '0')
  }

  predicate AllDigits(s: string) {
    forall c :: c in s ==> IsDigit(c)
  }

  lemma CanonicalStep(front: string, d: nat, v: nat, k: nat) returns (more: nat)
    requires d < 10 && front == Zeros(k) + ItoaNat(v)
    ensures front + [DigitChar(d)] == Zeros(more) + ItoaNat(v * 10 + d)
  {
    if v == 0 {
      more := k + 1;
      assert ItoaNat(0) == [DigitChar(0)] && DigitChar(0) == '0';
      assert front == Zeros(k + 1);
    } else {
      more := k;
      assert ItoaNat(v * 10 + d) == ItoaNat(v) + [DigitChar(d)];
      Assoc(Zeros(k), ItoaNat(v), [DigitChar(d)]);
    }
  }

  /** A digit string is the printed form of its value after some zeros. */
  lemma {:induction false} DigitsCanonical(s: string) returns (k: nat)
    requires s != "" && AllDigits(s)
    ensures DigitsValue(s) >= 0 && s == Zeros(k) + ItoaNat(DigitsValue(s))
  {
    var front, last := s[..|s| - 1], s[|s| - 1];
    assert last in s && s == front + [last];
    var d := last as int - 48;
    assert last == DigitChar(d);
    if front == "" {
      k := 0;
      assert DigitsValue(front) == 0 && Zeros(0) == "";
    } else {
      k := DigitsCanonical(front);
      k := CanonicalStep(front, d, DigitsValue(front), k);
    }
  }

  lemma {:induction false} ZerosValue(k: nat, n: nat)
    ensures AllDigits(Zeros(k) + ItoaNat(n)) && DigitsValue(Zeros(k) + ItoaNat(n)) == n
    decreases k, n
  {
    var s := Zeros(k) + ItoaNat(n);
    ItoaNatDigits(n);
    if n >= 10 {
      ZerosValue(k, n / 10);
      assert s[..|s| - 1] == Zeros(k) + ItoaNat(n / 10);
    } else if k == 0 {
      assert s == ItoaNat(n);
    } else {
      ZerosValue(k - 1, 0);
      assert s[..|s| - 1] == Zeros(k - 1) + ItoaNat(0);
    }
  }

  predicate IsSign(sign: string, n: int) {
    (sign == "-" && n <= 0) || ((sign == "+" || sign == "") && n >= 0)
  }

  function Abs(n: int): nat {
    if n < 0 then -n else n
  }

  /** `s` is `n` written with a sign or without, after any number of zeros. */
  ghost predicate Writes(s: string, n: int) {
    exists sign: string, k: nat :: IsSign(sign, n) && s == sign + (Zeros(k) + ItoaNat(Abs(n)))
  }

  lemma AtoiParts(sign: string, digits: string)
    requires sign == "" || sign == "-" || sign == "+"
    requires digits != "" && AllDigits(digits)
    ensures var v := if sign == "-" then -DigitsValue(digits) else DigitsValue(digits);
      Atoi(sign + digits) == if InInt64(v) then Some(v) else None
  {
    assert digits[0] in digits;
    if sign == "" {
      assert sign + digits == digits;
    } else {
      assert (sign + digits)[1..] == digits;
    }
  }

  lemma WrittenIsRead(n: int, sign: string, k: nat)
    requires InInt64(n) && IsSign(sign, n)
    ensures Atoi(sign + (Zeros(k) + ItoaNat(Abs(n)))) == Some(n)
  {
    ZerosValue(k, Abs(n));
    AtoiParts(sign, Zeros(k) + ItoaNat(Abs(n)));
  }

  /** Reading a number, on all strings: a signed or unsigned decimal within 64 bits, and nothing else. */
  lemma AtoiIff(s: string, n: int)
    ensures Atoi(s) == Some(n) <==> InInt64(n) && Writes(s, n)
  {
    if Atoi(s) == Some(n) {
      var signed := s != "" && (s[0] == '-' || s[0] == '+');
      var sign, digits := if signed then s[..1] else "", if signed then s[1..] else s;
      var k := DigitsCanonical(digits);
      assert s == sign + digits && IsSign(sign, n) && Abs(n) == DigitsValue(digits);
    }
    if InInt64(n) && Writes(s, n) {
      var sign: string, k: nat :| IsSign(sign, n) && s == sign + (Zeros(k) + ItoaNat(Abs(n)));
      WrittenIsRead(n, sign, k);
    }
  }

  // The byte order that sort.Strings uses.

  predicate Less(a: string, b: string) {
    b != "" && (a == "" || a[0] < b[0] || (a[0] == b[0] && Less(a[1..], b[1..])))
  }

  /** `a` and `b` agree up to `k`, where `a` ends or has the smaller byte. */
  predicate DiffersAt(a: string, b: string, k: int) {
    && 0 <= k <= |a| && k < |b| && a[..k] == b[..k]
    && (k == |a| || a[k] < b[k])
  }

  lemma SameHead(a: string, b: string, k: int)
    requires DiffersAt(a, b, k) && k > 0
    ensures a[0] == b[0]
  {
    assert a[..k][0] == b[..k][0];
  }

  /** It is the lexicographic order. */
  lemma {:induction false} LessMeaning(a: string, b: string)
    ensures Less(a, b) <==> exists k :: DiffersAt(a, b, k)
  {
    if a == "" || b == "" {
      assert b != "" ==> DiffersAt(a, b, 0);
    } else if a[0] != b[0] {
      assert a[0] < b[0] ==> DiffersAt(a, b, 0);
      forall k | DiffersAt(a, b, k) ensures k == 0 {
        if k > 0 { SameHead(a, b, k); }
      }
    } else {
      LessMeaning(a[1..], b[1..]);
      forall k | DiffersAt(a, b, k) ensures DiffersAt(a[1..], b[1..], k - 1) {
        assert a[1..][..k - 1] == a[..k][1..] && b[1..][..k - 1] == b[..k][1..];
      }
      forall k | DiffersAt(a[1..], b[1..], k) ensures DiffersAt(a, b, k + 1) {
        assert a[..k + 1] == [a[0]] + a[1..][..k] && b[..k + 1] == [b[0]] + b[1..][..k];
      }
    }
  }

  lemma {:induction false} LessIrreflexive(a: string)
    ensures !Less(a, a)
  {
    if a == "" {
    } else {
      LessIrreflexive(a[1..]);
    }
  }

  lemma {:induction false} LessTransitive(a: string, b: string, c: string)
    requires Less(a, b) && Less(b, c)
    ensures Less(a, c)
  {
    if a != "" && a[0] == b[0] == c[0] {
      LessTransitive(a[1..], b[1..], c[1..]);
    }
  }

  lemma {:induction false} LessTotal(a: string, b: string)
    ensures a == b || Less(a, b) || Less(b, a)
  {
    if a != "" && b != "" && a[0] == b[0] {
      LessTotal(a[1..], b[1..]);
      assert a == [a[0]] + a[1..] && b == [b[0]] + b[1..];
    }
  }

  ghost predicate StrictlySorted(names: seq<string>) {
    forall i, j :: 0 <= i < j < |names| ==> Less(names[i], names[j])
  }

  /** A set of names has only one strictly increasing enumeration. */
  lemma {:induction false} SortedUnique(a: seq<string>, b: seq<string>)
    requires StrictlySorted(a) && StrictlySorted(b)
    requires forall x :: x in a <==> x in b
    ensures a == b
  {
    assert (a != [] ==> a[0] in a) && (b != [] ==> b[0] in b);
    if a != [] && b != [] {
      if a[0] != b[0] {
        assert a[0] in b && b[0] in a;
        var i :| 0 <= i < |b| && b[i] == a[0];
        var j :| 0 <= j < |a| && a[j] == b[0];
        LessTransitive(a[0], b[0], a[0]);
        LessIrreflexive(a[0]);
      }
      LessIrreflexive(a[0]);
      assert a[0] !in a[1..] && b[0] !in b[1..];
      forall x ensures x in a[1..] <==> x in b[1..] {
        assert x in [a[0]] + a[1..] <==> x in [b[0]] + b[1..] by {
          assert a == [a[0]] + a[1..] && b == [b[0]] + b[1..];
        }
      }
      SortedUnique(a[1..], b[1..]);
    }
  }

  lemma {:induction false} SubsetSize<T>(a: set<T>, b: set<T>)
    requires a <= b
    ensures |a| <= |b|
    decreases a
  {
    if a == {} {
    } else {
      var x :| x in a;
      SubsetSize(a - {x}, b - {x});
    }
  }
}
