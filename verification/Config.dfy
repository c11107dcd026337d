/** Validation of the emulator list (config/config.go:23-28, 241-259). */
module Config {
  import opened Text

  datatype Emulator = Emulator(port: int, abi: string)

  datatype EmulatorError = NoEmulators | PortOutOfRange(index: nat) | DuplicatePort(index: nat) | UnknownAbi(index: nat)

  predicate KnownAbi(abi: string) {
    abi == "arm64-v8a" || abi == "armeabi-v7a" || abi == "x86_64" || abi == "x86"
  }

  predicate PortInRange(port: int) {
    1 <= port <= 65535
  }

  predicate DistinctPorts(es: seq<Emulator>) {
    forall i, j :: 0 <= i < j < |es| ==> es[i].port != es[j].port
  }

  predicate ValidEmulators(es: seq<Emulator>) {
    && es != [] && DistinctPorts(es)
    && forall e :: e in es ==> PortInRange(e.port) && KnownAbi(e.abi)
  }

  lemma ValidPrefix(es: seq<Emulator>, i: nat)
    requires i < |es|
    ensures ValidEmulators(es[..i + 1]) <==>
      (i > 0 ==> ValidEmulators(es[..i])) && PortInRange(es[i].port) && KnownAbi(es[i].abi)
      && forall k :: 0 <= k < i ==> es[k].port != es[i].port
  {
    var front, e := es[..i], es[i];
    assert es[..i + 1] == front + [e];
    if ValidEmulators(es[..i + 1]) {
      assert forall f :: f in front || f == e ==> f in es[..i + 1];
      forall k | 0 <= k < i ensures es[k].port != e.port {
        assert es[..i + 1][k].port != es[..i + 1][i].port;
      }
    } else if (i > 0 ==> ValidEmulators(front)) && PortInRange(e.port) && KnownAbi(e.abi) {
      assert !DistinctPorts(es[..i + 1]);
    }
  }

  /** Accepts exactly the valid lists, and otherwise points at the first entry in the way. */
  method ValidateEmulators(es: seq<Emulator>) returns (r: Option<EmulatorError>)
    ensures r.None? <==> ValidEmulators(es)
    ensures r.None? <==>
      && es != [] && (forall i, j :: 0 <= i < j < |es| ==> es[i].port != es[j].port)
      && (forall e :: e in es ==> 1 <= e.port <= 65535)
      && (forall e :: e in es ==> e.abi == "arm64-v8a" || e.abi == "armeabi-v7a" || e.abi == "x86_64" || e.abi == "x86")
    ensures r.Some? && !r.value.NoEmulators? ==>
      var i := r.value.index; i < |es| && (i > 0 ==> ValidEmulators(es[..i])) && !ValidEmulators(es[..i + 1])
    ensures r.Some? ==> match r.value
      case NoEmulators => es == []
      case PortOutOfRange(i) => !PortInRange(es[i].port)
      case DuplicatePort(i) => exists k :: 0 <= k < i && es[k].port == es[i].port
      case UnknownAbi(i) => !KnownAbi(es[i].abi)
  {
    if |es| == 0 {
      return Some(NoEmulators);
    }
    var seen: set<int> := {};
    for i := 0 to |es|
      invariant forall p :: p in seen <==> exists k :: 0 <= k < i && es[k].port == p
      invariant i > 0 ==> ValidEmulators(es[..i])
    {
      ValidPrefix(es, i);
      var e := es[i];
      if e.port < 1 || e.port > 65535 {
        assert e in es;
        return Some(PortOutOfRange(i));
      }
      if e.port in seen {
        return Some(DuplicatePort(i));
      }
      seen := seen + {e.port};
      if !KnownAbi(e.abi) {
        assert e in es;
        return Some(UnknownAbi(i));
      }
    }
    assert es[..|es|] == es;
    return None;
  }
}
