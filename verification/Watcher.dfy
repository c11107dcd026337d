/** The emulator clients and the package list of a poll (watcher/watcher.go:77-95, 196-230). */
module Watcher {
  import opened Text
  import opened Config

  /** An adb client: an object with an identity, named by host and port. */
  class Client {
    const serial: string
    const abi: string

    constructor (serial: string, abi: string)
      ensures this.serial == serial && this.abi == abi
    {
      this.serial, this.abi := serial, abi;
    }
  }

  function SerialOf(host: string, port: int): string {
    host + ":" + Itoa(port)
  }

  lemma SerialInjective(host: string, p: int, q: int)
    requires InInt64(p) && InInt64(q)
    ensures SerialOf(host, p) == SerialOf(host, q) <==> p == q
  {
    AtoiItoa(p);
    AtoiItoa(q);
    assert SerialOf(host, p)[|host| + 1..] == Itoa(p) && SerialOf(host, q)[|host| + 1..] == Itoa(q);
  }

  predicate DistinctSerials(clients: seq<Client>) {
    forall i, j :: 0 <= i < j < |clients| ==> clients[i].serial != clients[j].serial
  }

  /** The clients are the configured emulators, in order. */
  predicate Matches(clients: seq<Client>, host: string, es: seq<Emulator>) {
    |clients| == |es| && forall i :: 0 <= i < |es| ==> clients[i].serial == SerialOf(host, es[i].port)
  }

  predicate ClientOf(c: Client, bySerial: map<string, Client>, host: string, e: Emulator) {
    && c.serial == SerialOf(host, e.port)
    && if c.serial in bySerial then c == bySerial[c.serial] else c.abi == e.abi
  }

  lemma ValidatedSerials(clients: seq<Client>, host: string, es: seq<Emulator>)
    requires Matches(clients, host, es) && ValidEmulators(es)
    ensures DistinctSerials(clients)
  {
    forall i, j | 0 <= i < j < |clients| ensures clients[i].serial != clients[j].serial {
      assert es[i] in es && es[j] in es;
      SerialInjective(host, es[i].port, es[j].port);
    }
  }

  class Watcher {
    var clients: seq<Client>

    constructor (clients: seq<Client>)
      ensures this.clients == clients
    {
      this.clients := clients;
    }

    method IndexBySerial() returns (bySerial: map<string, Client>)
      ensures forall s :: s in bySerial ==> bySerial[s] in clients && bySerial[s].serial == s
      ensures forall c :: c in clients ==> c.serial in bySerial
    {
      bySerial := map[];
      for i := 0 to |clients|
        invariant forall s :: s in bySerial ==> bySerial[s] in clients && bySerial[s].serial == s
        invariant forall c :: c in clients[..i] ==> c.serial in bySerial
      {
        assert clients[..i + 1] == clients[..i] + [clients[i]];
        bySerial := bySerial[clients[i].serial := clients[i]];
      }
      assert clients[..|clients|] == clients;
    }

    method ClientFor(bySerial: map<string, Client>, serial: string, abi: string) returns (c: Client)
      requires serial in bySerial ==> bySerial[serial].serial == serial
      ensures c.serial == serial
      ensures if serial in bySerial then c == bySerial[serial] else fresh(c) && c.abi == abi
    {
      if serial in bySerial {
        return bySerial[serial];
      }
      c := new Client(serial, abi);
    }

    /** One client per configured emulator: the known one with its serial, or a new one. */
    method Reconcile(bySerial: map<string, Client>, host: string, es: seq<Emulator>) returns (next: seq<Client>)
      requires forall s :: s in bySerial ==> bySerial[s].serial == s
      ensures |next| == |es| && forall k :: 0 <= k < |es| ==> ClientOf(next[k], bySerial, host, es[k])
      ensures forall c :: c in next ==> c.serial in bySerial || fresh(c)
    {
      next := [];
      for i := 0 to |es|
        invariant |next| == i && forall k :: 0 <= k < i ==> ClientOf(next[k], bySerial, host, es[k])
        invariant forall c :: c in next ==> c.serial in bySerial || fresh(c)
      {
        var c := ClientFor(bySerial, SerialOf(host, es[i].port), es[i].abi);
        next := next + [c];
      }
    }

    /** Reconciles with a new configuration. A known serial keeps its client object, whatever ABI the
        new configuration gives it; a new one gets a new client. */
    method SyncClients(host: string, es: seq<Emulator>)
      modifies this
      ensures Matches(clients, host, es)
      ensures forall i :: 0 <= i < |es| ==> clients[i].serial == host + ":" + Itoa(es[i].port)
      ensures forall i :: 0 <= i < |es| ==>
        if HasSerial(old(clients), clients[i].serial) then clients[i] in old(clients)
        else fresh(clients[i]) && clients[i].abi == es[i].abi
      ensures ValidEmulators(es) ==> DistinctSerials(clients)
      ensures old(DistinctSerials(clients)) ==>
        forall c, d :: c in old(clients) && d in clients && c.serial == d.serial ==> c == d
      ensures old(DistinctSerials(clients)) ==> forall i :: 0 <= i < |es| ==>
        (clients[i].abi == es[i].abi <==>
           forall c :: c in old(clients) && c.serial == clients[i].serial ==> c.abi == es[i].abi)
      ensures old(DistinctSerials(clients)) && old(Matches(clients, host, es)) ==> clients == old(clients)
    {
      var bySerial := IndexBySerial();
      ghost var before := clients;
      clients := Reconcile(bySerial, host, es);
      if ValidEmulators(es) { ValidatedSerials(clients, host, es); }
      if DistinctSerials(before) {
        SameSerialSameClient(before);
        forall c, d | c in before && d in clients && c.serial == d.serial ensures c == d {
          assert d.serial in bySerial;
        }
      }
    }
  }

  predicate HasSerial(clients: seq<Client>, serial: string) {
    exists c :: c in clients && c.serial == serial
  }

  lemma SameSerialSameClient(clients: seq<Client>)
    ensures DistinctSerials(clients) ==> forall c, d :: c in clients && d in clients && c.serial == d.serial ==> c == d
  {
  }

  // The packages of one poll: configured ones first, then the managed ones, each once.

  function DedupOnto(result: seq<string>, names: seq<string>): seq<string>
    decreases |names|
  {
    if names == [] then result
    else DedupOnto(if names[0] in result then result else result + [names[0]], names[1..])
  }

  method EffectivePackages(configured: seq<string>, managed: seq<string>) returns (result: seq<string>)
    ensures result == DedupOnto([], configured + managed)
  {
    var seen: set<string> := {};
    var all := configured + managed;
    result := [];
    for i := 0 to |all|
      invariant forall p :: p in seen <==> p in result
      invariant DedupOnto([], all) == DedupOnto(result, all[i..])
    {
      assert all[i..][0] == all[i] && all[i..][1..] == all[i + 1..];
      var p := all[i];
      if p !in seen {
        seen := seen + {p};
        result := result + [p];
      }
    }
  }

  lemma {:induction false} DedupMeaning(result: seq<string>, names: seq<string>)
    requires Distinct(result)
    ensures result <= DedupOnto(result, names) && Distinct(DedupOnto(result, names))
    ensures forall p :: p in DedupOnto(result, names) <==> p in result || p in names
    decreases |names|
  {
    if names == [] {
    } else {
      var next := if names[0] in result then result else result + [names[0]];
      assert forall p :: p in next <==> p in result || p == names[0];
      DedupMeaning(next, names[1..]);
      assert forall p :: p in names <==> p == names[0] || p in names[1..];
    }
  }

  lemma {:induction false} DedupConcat(result: seq<string>, a: seq<string>, b: seq<string>)
    ensures DedupOnto(result, a + b) == DedupOnto(DedupOnto(result, a), b)
    decreases |a|
  {
    if a == [] {
      assert a + b == b;
    } else {
      assert (a + b)[1..] == a[1..] + b;
      DedupConcat(if a[0] in result then result else result + [a[0]], a[1..], b);
    }
  }

  /** `x` occurs before `y` first does. */
  ghost predicate FirstBefore(names: seq<string>, x: string, y: string) {
    exists i :: 0 <= i < |names| && names[i] == x && y !in names[..i + 1]
  }

  /** Packages keep the order of their first occurrences. */
  lemma {:induction false} DedupOrder(names: seq<string>)
    ensures var r := DedupOnto([], names); forall i, j :: 0 <= i < j < |r| ==> FirstBefore(names, r[i], r[j])
  {
    if names == [] {
    } else {
      var front, last := names[..|names| - 1], names[|names| - 1];
      var r, r0 := DedupOnto([], names), DedupOnto([], front);
      assert names == front + [last] && [last][1..] == [];
      DedupConcat([], front, [last]);
      DedupMeaning([], front);
      DedupOrder(front);
      forall i, j | 0 <= i < j < |r| ensures FirstBefore(names, r[i], r[j]) {
        if j < |r0| {
          FirstBeforeMore(front, last, r0[i], r0[j]);
        } else {
          assert r0[i] in r0 && r0[i] in front;
          var a :| 0 <= a < |front| && front[a] == r0[i];
          assert names[a] == r0[i] && names[..a + 1] == front[..a + 1];
        }
      }
    }
  }

  lemma FirstBeforeMore(front: seq<string>, last: string, x: string, y: string)
    requires FirstBefore(front, x, y)
    ensures FirstBefore(front + [last], x, y)
  {
    var i :| 0 <= i < |front| && front[i] == x && y !in front[..i + 1];
    assert (front + [last])[i] == x && (front + [last])[..i + 1] == front[..i + 1];
  }

  /** Every configured or managed package is polled exactly once, the configured ones first. */
  lemma PolledOnce(configured: seq<string>, managed: seq<string>)
    ensures var r := DedupOnto([], configured + managed);
      && (forall p :: p in r <==> p in configured || p in managed)
      && Distinct(r) && DedupOnto([], configured) <= r
      && forall i, j :: 0 <= i < j < |r| ==> FirstBefore(configured + managed, r[i], r[j])
  {
    DedupOrder(configured + managed);
    DedupConcat([], configured, managed);
    DedupMeaning([], configured);
    DedupMeaning(DedupOnto([], configured), managed);
  }
}
