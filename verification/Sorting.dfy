/** Listing a Go map's keys in sorted order: iteration in any order, then sort.Strings. */
module Sorting {
  import opened Text

  /** The keys in whatever order the map hands them out. */
  method Enumerate(s: set<string>) returns (names: seq<string>)
    ensures forall x :: x in names <==> x in s
    ensures Distinct(names)
  {
    names := [];
    var rest := s;
    while rest != {}
      invariant rest <= s
      invariant forall x :: x in names <==> x in s - rest
      invariant Distinct(names)
      decreases rest
    {
      var x :| x in rest;
      assert x !in names;
      names := names + [x];
      rest := rest - {x};
    }
  }

  method SortStrings(names: seq<string>) returns (sorted: seq<string>)
    requires Distinct(names)
    ensures StrictlySorted(sorted)
    ensures forall x :: x in sorted <==> x in names
  {
    sorted := [];
    for n := 0 to |names|
      invariant StrictlySorted(sorted)
      invariant forall x :: x in sorted <==> x in names[..n]
    {
      var x, i := names[n], 0;
      assert x !in names[..n];
      while i < |sorted| && Less(sorted[i], x)
        invariant 0 <= i <= |sorted|
        invariant forall j :: 0 <= j < i ==> Less(sorted[j], x)
      {
        i := i + 1;
      }
      forall j | i <= j < |sorted| ensures Less(x, sorted[j]) {
        assert sorted[i] in sorted;
        LessTotal(sorted[i], x);
        if i < j { LessTransitive(x, sorted[i], sorted[j]); }
      }
      assert names[..n + 1] == names[..n] + [x];
      assert sorted == sorted[..i] + sorted[i..];
      sorted := sorted[..i] + [x] + sorted[i..];
    }
    assert names[..|names|] == names;
  }

  method SortedKeys(s: set<string>) returns (names: seq<string>)
    ensures StrictlySorted(names)
    ensures forall x :: x in names <==> x in s
  {
    names := Enumerate(s);
    names := SortStrings(names);
  }
}
