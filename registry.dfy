/** The client registry: the global `clients` map from connection to a
    per-client value, bounded by `max_clients` (`add_client`,
    `remove_client`). Connections are an abstract identity type `C`. */
module ClientRegistry {

  /** `max_clients`. */
  const MaxClients := 8

  /** No connection occurs twice in `s`. */
  ghost predicate Distinct<C>(s: seq<C>) {
    forall i, j :: 0 <= i < j < |s| ==> s[i] != s[j]
  }

  /** `add_client` on the map `m`: whether `conn` was admitted, and the new map.
      A full registry refuses every connection, even one already in it. */
  function Admit<C>(m: map<C, int>, conn: C): (r: (bool, map<C, int>))
    ensures r.0 <==> |m| < MaxClients
    ensures r.0 ==> r.1.Keys == m.Keys + {conn} && r.1[conn] == 0
                    && forall c :: c in m && c != conn ==> r.1[c] == m[c]
    ensures !r.0 ==> r.1 == m
    ensures |m| <= MaxClients ==> |r.1| <= MaxClients
  {
    if |m| >= MaxClients then (false, m)
    else (true, m[conn := 0])
  }

  /** `remove_client` on the map `m`: `conn` is gone and every other entry stays. */
  function Deregister<C>(m: map<C, int>, conn: C): (r: map<C, int>)
    ensures r.Keys == m.Keys - {conn}
    ensures forall c :: c in r ==> r[c] == m[c]
    ensures |r| <= |m|
  {
    m - {conn}
  }

  /** Removing a connection that is not registered changes nothing. */
  lemma DeregisterAbsent<C>(m: map<C, int>, conn: C)
    requires conn !in m
    ensures Deregister(m, conn) == m
  {
    assert Deregister(m, conn).Keys == m.Keys;
  }

  /** Removing twice is removing once. */
  lemma DeregisterIdempotent<C>(m: map<C, int>, conn: C)
    ensures Deregister(Deregister(m, conn), conn) == Deregister(m, conn)
  {
    DeregisterAbsent(Deregister(m, conn), conn);
  }

  /** The shared registry, owned by one thread of control in this model. */
  class Registry<C(==)> {
    /** `clients`: connection -> per-client value (always 0 today). */
    var clients: map<C, int>
    /** Every `remove_client` call so far, in order. */
    ghost var removals: seq<C>

    ghost predicate Valid()
      reads this
    {
      |clients| <= MaxClients
    }

    /** `make(map[net.Conn]int)`. */
    constructor ()
      ensures Valid() && clients == map[] && removals == []
    {
      clients := map[];
      removals := [];
    }

    /** `add_client`. */
    method Add(conn: C) returns (ok: bool)
      requires Valid()
      modifies this
      ensures Valid()
      ensures ok <==> |old(clients)| < MaxClients
      ensures clients == if ok then old(clients)[conn := 0] else old(clients)
      ensures (ok, clients) == Admit(old(clients), conn)
      ensures removals == old(removals)
    {
      if |clients| >= MaxClients {
        return false;
      }
      clients := clients[conn := 0];
      return true;
    }

    /** `remove_client`. */
    method Remove(conn: C)
      requires Valid()
      modifies this
      ensures Valid()
      ensures clients == Deregister(old(clients), conn)
      ensures removals == old(removals) + [conn]
    {
      clients := clients - {conn};
      removals := removals + [conn];
    }
  }

  // ---------------------------------------------------------------------
  // Traces: the accept loop admitting connections, interleaved with
  // sessions ending and removing theirs.
  // ---------------------------------------------------------------------

  datatype Event<C> = Arrive(conn: C) | Leave(conn: C)

  /** One event: the new map, and the connection refused (if any). */
  function Step<C>(m: map<C, int>, e: Event<C>): (map<C, int>, seq<C>) {
    match e
    case Arrive(c) => (Admit(m, c).1, if Admit(m, c).0 then [] else [c])
    case Leave(c) => (Deregister(m, c), [])
  }

  /** The registry after `events`, and every connection refused, in order. */
  function Run<C>(m: map<C, int>, events: seq<Event<C>>): (map<C, int>, seq<C>) {
    if events == [] then (m, [])
    else
      var before := Run(m, events[..|events| - 1]);
      var step := Step(before.0, events[|events| - 1]);
      (step.0, before.1 + step.1)
  }

  function Arrivals<C>(cs: seq<C>): (es: seq<Event<C>>)
    ensures |es| == |cs| && forall i :: 0 <= i < |cs| ==> es[i] == Arrive(cs[i])
  {
    seq(|cs|, i requires 0 <= i < |cs| => Arrive(cs[i]))
  }

  /** Capacity invariant: whatever arrives and leaves, in whatever order, the
      registry never holds more than `MaxClients` connections. */
  lemma {:induction false} RunBounded<C>(m: map<C, int>, events: seq<Event<C>>)
    requires |m| <= MaxClients
    ensures |Run(m, events).0| <= MaxClients
  {
    if events != [] {
      RunBounded(m, events[..|events| - 1]);
    }
  }

  /** Connections that are all new are all admitted while there is room:
      none is refused and each one adds itself to the registry. */
  lemma {:induction false} FreshArrivalsAdmitted<C>(m: map<C, int>, cs: seq<C>)
    requires Distinct(cs) && forall i :: 0 <= i < |cs| ==> cs[i] !in m
    requires |m| + |cs| <= MaxClients
    ensures Run(m, Arrivals(cs)).1 == []
    ensures forall c :: c in Run(m, Arrivals(cs)).0 <==> c in m || c in cs
    ensures |Run(m, Arrivals(cs)).0| == |m| + |cs|
  {
    if cs != [] {
      var init, last := cs[..|cs| - 1], cs[|cs| - 1];
      var ev := Arrivals(cs);
      assert ev[..|ev| - 1] == Arrivals(init);
      FreshArrivalsAdmitted(m, init);
      var before := Run(m, Arrivals(init));
      assert last !in before.0 by {
        forall j | 0 <= j < |init|
          ensures init[j] != last
        {
          assert cs[j] != cs[|cs| - 1];
        }
      }
      AdmitFresh(before.0, last);
      assert Run(m, ev) == (Admit(before.0, last).1, before.1 + []);
      assert cs == init + [last];
    }
  }

  /** A new connection admitted into a registry with room grows it by one. */
  lemma AdmitFresh<C>(m: map<C, int>, c: C)
    requires c !in m && |m| < MaxClients
    ensures Admit(m, c).0 && Admit(m, c).1.Keys == m.Keys + {c} && |Admit(m, c).1| == |m| + 1
  {
  }

  /** With `MaxClients` connections admitted and none gone, the next one is
      refused (and would be kicked), whoever it is. */
  lemma FullRegistryRefuses<C>(cs: seq<C>, c: C)
    requires Distinct(cs) && |cs| == MaxClients
    ensures Run(map[], Arrivals(cs + [c])).1 == [c]
  {
    FreshArrivalsAdmitted(map[], cs);
    assert Arrivals(cs + [c])[..|cs|] == Arrivals(cs);
  }
}
