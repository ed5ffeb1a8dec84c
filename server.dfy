/** Message dispatch (`handleMessage`), the per-connection read loop
    (`handleConnection`) and the admit-or-kick step of the accept loop
    (`main`). Sockets are abstract: a connection is an identity `C`, a read
    is a `ReadResult`, and every `binary.Write` is recorded as a `Write`. */
module Server {
  import opened Wire
  import opened Codec
  import opened ClientRegistry

  /** The number a GET_REQUESTNUM request is answered with. */
  const RequestedNum := 19238

  /** The reason sent to a connection refused on a full server. */
  const FullServerReason: seq<Byte> := AsciiBytes("Full Server")

  /** The answer to GET_REQUESTNUM: its tag, then the number as a
      little-endian `uint16`. */
  function ReplyWrites<C(!new)>(t: Tags, sender: C): seq<Write<C>> {
    [Write(sender, [t.sendRequestedNum]), Write(sender, Uint16LE(RequestedNum))]
  }

  /** The writes of a broadcast that visits the connections in `order`:
      each one gets the BROADCAST_MSG tag, then the string bytes. */
  function BroadcastWrites<C(!new)>(order: seq<C>, t: Tags, msg: seq<Byte>): (ws: seq<Write<C>>)
    ensures |ws| == 2 * |order|
  {
    if order == [] then []
    else
      var c := order[|order| - 1];
      BroadcastWrites(order[..|order| - 1], t, msg) + [Write(c, [t.broadcastMsg]), Write(c, msg)]
  }

  /** `order` lists every key exactly once: one way `range` can visit a map. */
  ghost predicate Enumerates<C(!new)>(order: seq<C>, keys: set<C>) {
    Distinct(order) && forall c :: c in keys <==> c in order
  }

  /** What `handleMessage(sender, buf, reqLen)` does, case by case in the
      order of its `switch`: the writes it performs, and whether it panics.
      GET_TESTMSG only logs, but its number read goes through `buf[index]`,
      which panics when the string left the cursor past the buffer. */
  ghost predicate Handles<C(!new)>(t: Tags, keys: set<C>, sender: C, buf: seq<Byte>, reqLen: nat,
                             writes: seq<Write<C>>, panicked: bool)
    requires |buf| == BufSize && reqLen <= BufSize
  {
    if buf[0] == t.getTestMsg then
      writes == [] && panicked == (StringAt(buf, 1, reqLen).1 >= BufSize)
    else if buf[0] == t.getRequestNum then
      writes == ReplyWrites(t, sender) && !panicked
    else if buf[0] == t.getMsg then
      !panicked &&
      exists order :: Enumerates(order, keys) && writes == BroadcastWrites(order, t, StringAt(buf, 1, reqLen).0)
    else
      writes == [] && !panicked
  }

  /** `handleMessage`. The registry is only read. */
  method Dispatch<C(==, !new)>(reg: Registry<C>, t: Tags, conn: C, buf: array<Byte>, reqLen: nat)
    returns (writes: seq<Write<C>>, panicked: bool)
    requires buf.Length == BufSize && reqLen <= BufSize
    ensures Handles(t, reg.clients.Keys, conn, buf[..], reqLen, writes, panicked)
  {
    writes, panicked := [], false;
    var index := 1;
    if buf[0] == t.getTestMsg {
      var text;
      text, index := GetString(buf, index, reqLen);
      if index < buf.Length {
        var number;
        number, index := GetNumber(buf, index);
      } else {
        panicked := true;
      }
    } else if buf[0] == t.getRequestNum {
      writes := writes + [Write(conn, [t.sendRequestedNum])];
      writes := writes + [Write(conn, Uint16LE(RequestedNum))];
    } else if buf[0] == t.getMsg {
      var msg;
      msg, index := GetString(buf, index, reqLen);
      var rest := reg.clients.Keys;
      ghost var order: seq<C> := [];
      while rest != {}
        invariant Distinct(order)
        invariant forall c :: c in reg.clients.Keys <==> c in order || c in rest
        invariant forall c :: c in order ==> c !in rest
        invariant writes == BroadcastWrites(order, t, msg)
        decreases rest
      {
        var client :| client in rest;
        writes := writes + [Write(client, [t.broadcastMsg])];
        writes := writes + [Write(client, msg)];
        order := order + [client];
        rest := rest - {client};
      }
      assert Enumerates(order, reg.clients.Keys);
    }
  }

  // ---------------------------------------------------------------------
  // What each message does, per connection
  // ---------------------------------------------------------------------

  /** Every connection in a broadcast's order gets exactly two writes, the
      tag then the string; a connection outside it gets none. */
  lemma {:induction false} BroadcastReachesEach<C(!new)>(order: seq<C>, t: Tags, msg: seq<Byte>, c: C)
    requires Distinct(order)
    ensures WritesTo(BroadcastWrites(order, t, msg), c) ==
              if c in order then [[t.broadcastMsg], msg] else []
  {
    if order != [] {
      var init, last := order[..|order| - 1], order[|order| - 1];
      assert order == init + [last];
      BroadcastReachesEach(init, t, msg, c);
      BroadcastSnoc(init, last, t, msg, c);
      assert last !in init by {
        forall j | 0 <= j < |init|
          ensures init[j] != last
        {
          assert order[j] != order[|order| - 1];
        }
      }
    }
  }

  /** Visiting one more connection adds its two writes to its own list only. */
  lemma BroadcastSnoc<C(!new)>(init: seq<C>, last: C, t: Tags, msg: seq<Byte>, c: C)
    ensures WritesTo(BroadcastWrites(init + [last], t, msg), c) ==
              WritesTo(BroadcastWrites(init, t, msg), c) + (if last == c then [[t.broadcastMsg], msg] else [])
  {
    assert (init + [last])[..|init|] == init;
    var w1, w2 := Write(last, [t.broadcastMsg]), Write(last, msg);
    assert BroadcastWrites(init + [last], t, msg) == BroadcastWrites(init, t, msg) + [w1] + [w2];
    WritesToSnoc(BroadcastWrites(init, t, msg), w1, c);
    WritesToSnoc(BroadcastWrites(init, t, msg) + [w1], w2, c);
  }

  /** An enumeration of a set is as long as the set is large. */
  lemma {:induction false} EnumerationSize<C(!new)>(order: seq<C>, keys: set<C>)
    requires Enumerates(order, keys)
    ensures |order| == |keys|
  {
    if order != [] {
      var init, last := order[..|order| - 1], order[|order| - 1];
      assert order == init + [last];
      assert last !in init by {
        forall j | 0 <= j < |init|
          ensures init[j] != last
        {
          assert order[j] != order[|order| - 1];
        }
      }
      EnumerationSize(init, keys - {last});
    }
  }

  /** GET_MSG fans out: every registered connection, the sender included,
      receives exactly one BROADCAST_MSG write followed by exactly one write
      of the decoded string, no one else receives anything, and nothing panics. */
  lemma BroadcastFanOut<C(!new)>(t: Tags, keys: set<C>, sender: C, buf: seq<Byte>, reqLen: nat,
                           writes: seq<Write<C>>, panicked: bool)
    requires |buf| == BufSize && reqLen <= BufSize && t.Valid() && buf[0] == t.getMsg
    requires Handles(t, keys, sender, buf, reqLen, writes, panicked)
    ensures !panicked && |writes| == 2 * |keys|
    ensures forall c :: WritesTo(writes, c) ==
              if c in keys then [[t.broadcastMsg], StringAt(buf, 1, reqLen).0] else []
  {
    var order :| Enumerates(order, keys)
                 && writes == BroadcastWrites(order, t, StringAt(buf, 1, reqLen).0);
    EnumerationSize(order, keys);
    forall c
      ensures WritesTo(writes, c) ==
                if c in keys then [[t.broadcastMsg], StringAt(buf, 1, reqLen).0] else []
    {
      BroadcastReachesEach(order, t, StringAt(buf, 1, reqLen).0, c);
    }
  }

  /** A chat message end to end: text `buf[1..p)` with no zero byte,
      terminated inside the read, reaches every registered connection as the
      BROADCAST_MSG tag and then bytes that decode back to that text (the
      text itself when it is ASCII). */
  lemma ChatRelayed<C(!new)>(t: Tags, keys: set<C>, sender: C, buf: seq<Byte>, reqLen: nat, p: nat,
                             writes: seq<Write<C>>, panicked: bool)
    requires |buf| == BufSize && reqLen <= BufSize && t.Valid() && buf[0] == t.getMsg
    requires 1 <= p < reqLen && buf[p] == 0 && ZeroFree(buf, 1, p)
    requires Handles(t, keys, sender, buf, reqLen, writes, panicked)
    ensures forall c :: c in keys ==>
              |WritesTo(writes, c)| == 2 && WritesTo(writes, c)[0] == [t.broadcastMsg]
              && DecodeRunes(WritesTo(writes, c)[1]) == Some(buf[1..p])
    ensures (forall i :: 1 <= i < p ==> buf[i] < 0x80) ==>
              forall c :: c in keys ==> WritesTo(writes, c) == [[t.broadcastMsg], buf[1..p]]
  {
    TerminatedStringRoundTrip(buf, 1, reqLen, p);
    BroadcastFanOut(t, keys, sender, buf, reqLen, writes, panicked);
    if forall i :: 1 <= i < p ==> buf[i] < 0x80 {
      EncodeAscii(buf[1..p]);
    }
  }

  /** GET_REQUESTNUM answers the sender alone with SEND_REQUESTED_NUM (2)
      and then 19238 as the little-endian bytes 0x26 0x4B. */
  lemma RequestNumAnswered<C(!new)>(t: Tags, keys: set<C>, sender: C, buf: seq<Byte>, reqLen: nat,
                              writes: seq<Write<C>>, panicked: bool)
    requires |buf| == BufSize && reqLen <= BufSize && t.Valid() && buf[0] == t.getRequestNum
    requires Handles(t, keys, sender, buf, reqLen, writes, panicked)
    ensures !panicked
    ensures forall c :: WritesTo(writes, c) == if c == sender then [[2], [0x26, 0x4B]] else []
  {
    assert Uint16LE(RequestedNum) == [0x26, 0x4B];
    forall c
      ensures WritesTo(writes, c) == if c == sender then [[2], [0x26, 0x4B]] else []
    {
      assert writes[..1] == [Write(sender, [2])];
    }
  }

  /** GET_TESTMSG writes nothing, and panics exactly when a full 1024-byte
      read has its only zero after the tag in its last byte: the string then
      leaves the cursor one past the buffer. */
  lemma TestMsgPanicsIff<C(!new)>(t: Tags, keys: set<C>, sender: C, buf: seq<Byte>, reqLen: nat,
                            writes: seq<Write<C>>, panicked: bool)
    requires |buf| == BufSize && reqLen <= BufSize && buf[0] == t.getTestMsg
    requires Handles(t, keys, sender, buf, reqLen, writes, panicked)
    ensures writes == []
    ensures panicked <==> reqLen == BufSize && buf[BufSize - 1] == 0 && ZeroFree(buf, 1, BufSize - 1)
  {
    CursorPastBufferIff(buf, reqLen);
  }

  /** A tag that names no GET_* message is ignored: no write, no panic. */
  lemma UnknownTagIgnored<C(!new)>(t: Tags, keys: set<C>, sender: C, buf: seq<Byte>, reqLen: nat,
                             writes: seq<Write<C>>, panicked: bool)
    requires |buf| == BufSize && reqLen <= BufSize
    requires buf[0] != t.getTestMsg && buf[0] != t.getRequestNum && buf[0] != t.getMsg
    requires Handles(t, keys, sender, buf, reqLen, writes, panicked)
    ensures writes == [] && !panicked
  {
  }

  // ---------------------------------------------------------------------
  // The session of one admitted connection
  // ---------------------------------------------------------------------

  /** The result of one `conn.Read`: the bytes received, or an error (the
      peer closed the connection, or the socket failed). */
  datatype ReadResult = Received(data: seq<Byte>) | Failed

  /** How a session's run over a finite trace of reads ended: the
      connection was removed after a failed read, a message made the process
      panic, or every read in the trace succeeded (the session goes on). */
  datatype SessionEnd = Closed | Crashed | Waiting

  /** The index of the first failed read, or `|trace|` when none failed. */
  function FirstFailure(trace: seq<ReadResult>): (n: nat)
    ensures n <= |trace|
    ensures forall i :: 0 <= i < n ==> trace[i].Received?
    ensures n < |trace| ==> trace[n].Failed?
  {
    if trace == [] then 0
    else if trace[0].Failed? then 0
    else 1 + FirstFailure(trace[1..])
  }

  /** The fresh 1024-byte buffer after a read of `data` into it. */
  function Filled(data: seq<Byte>): (buf: seq<Byte>)
    requires |data| <= BufSize
    ensures |buf| == BufSize && buf[..|data|] == data
    ensures forall i :: |data| <= i < BufSize ==> buf[i] == 0
  {
    data + seq(BufSize - |data|, _ => 0)
  }

  /** `make([]byte, BufSize)` followed by a `conn.Read` that delivered `data`. */
  method ReceiveBuffer(data: seq<Byte>) returns (buf: array<Byte>)
    requires |data| <= BufSize
    ensures fresh(buf) && buf[..] == Filled(data)
  {
    buf := new Byte[BufSize](_ => 0);
    forall k | 0 <= k < |data| {
      buf[k] := data[k];
    }
  }

  /** Read `r` succeeded and its message, dispatched, performed `batch`
      (and panicked or not). */
  ghost predicate HandledRead<C(!new)>(t: Tags, keys: set<C>, conn: C, r: ReadResult,
                                       batch: seq<Write<C>>, panicked: bool)
  {
    r.Received? && |r.data| <= BufSize
    && Handles(t, keys, conn, Filled(r.data), |r.data|, batch, panicked)
  }

  /** The first `|batches|` reads were received and handled without a panic. */
  ghost predicate AllHandled<C(!new)>(t: Tags, keys: set<C>, conn: C, trace: seq<ReadResult>,
                                      batches: seq<seq<Write<C>>>)
  {
    |batches| <= |trace|
    && forall k :: 0 <= k < |batches| ==> HandledRead(t, keys, conn, trace[k], batches[k], false)
  }

  /** One more handled read: without a panic the prefix is still all handled;
      with one, every batch but the last was handled without a panic. */
  lemma HandledSnoc<C(!new)>(t: Tags, keys: set<C>, conn: C, trace: seq<ReadResult>,
                             batches: seq<seq<Write<C>>>, writes: seq<Write<C>>, panicked: bool)
    requires AllHandled(t, keys, conn, trace, batches) && |batches| < |trace|
    requires HandledRead(t, keys, conn, trace[|batches|], writes, panicked)
    ensures var bs := batches + [writes];
            forall k :: 0 <= k < |bs| ==> HandledRead(t, keys, conn, trace[k], bs[k], panicked && k == |bs| - 1)
    ensures !panicked ==> AllHandled(t, keys, conn, trace, batches + [writes])
  {
  }

  /** `handleConnection`: reads until the first failed read, dispatching
      every message received; on that failure it removes the connection
      once and stops. No read after the failure is looked at. */
  method Session<C(==, !new)>(reg: Registry<C>, t: Tags, conn: C, trace: seq<ReadResult>)
    returns (batches: seq<seq<Write<C>>>, end: SessionEnd)
    requires reg.Valid()
    requires forall i :: 0 <= i < |trace| && trace[i].Received? ==> |trace[i].data| <= BufSize
    modifies reg
    ensures reg.Valid()
    ensures |batches| <= FirstFailure(trace)
    ensures forall i :: 0 <= i < |batches| ==>
              HandledRead(t, old(reg.clients).Keys, conn, trace[i], batches[i],
                          end == Crashed && i == |batches| - 1)
    ensures end == Crashed ==> |batches| > 0
    ensures end == Waiting ==> |batches| == FirstFailure(trace) == |trace|
    ensures end == Closed ==> |batches| == FirstFailure(trace) < |trace|
    ensures end == Closed ==> reg.clients == Deregister(old(reg.clients), conn)
                              && reg.removals == old(reg.removals) + [conn]
    ensures end != Closed ==> reg.clients == old(reg.clients) && reg.removals == old(reg.removals)
  {
    batches, end := [], Waiting;
    ghost var keys := reg.clients.Keys;
    var i := 0;
    while i < |trace|
      invariant 0 <= i <= |trace| && i == |batches| && i <= FirstFailure(trace)
      invariant reg.Valid()
      invariant reg.clients == old(reg.clients) && reg.removals == old(reg.removals)
      invariant AllHandled(t, keys, conn, trace, batches)
    {
      if trace[i].Failed? {
        reg.Remove(conn);
        end := Closed;
        return;
      }
      var data := trace[i].data;
      var buf := ReceiveBuffer(data);
      var writes, panicked := Dispatch(reg, t, conn, buf, |data|);
      assert HandledRead(t, keys, conn, trace[i], writes, panicked);
      HandledSnoc(t, keys, conn, trace, batches, writes, panicked);
      batches := batches + [writes];
      if panicked {
        end := Crashed;
        return;
      }
      i := i + 1;
    }
  }

  // ---------------------------------------------------------------------
  // Admission, in the accept loop of `main`
  // ---------------------------------------------------------------------

  /** What a connection refused on a full server is sent before it is left:
      the SEND_KICK tag, then the reason. */
  function KickWrites<C(==, !new)>(t: Tags, conn: C): (ws: seq<Write<C>>)
    ensures forall c :: WritesTo(ws, c) == if c == conn then [[t.sendKick], FullServerReason] else []
  {
    var ws := [Write(conn, [t.sendKick]), Write(conn, FullServerReason)];
    assert ws[..1] == [Write(conn, [t.sendKick])];
    ws
  }

  /** One accepted connection: admitted (its session is started), or kicked
      with SEND_KICK and "Full Server" and never read from. */
  method Accept<C(==, !new)>(reg: Registry<C>, t: Tags, conn: C) returns (admitted: bool, writes: seq<Write<C>>)
    requires reg.Valid()
    modifies reg
    ensures reg.Valid()
    ensures (admitted, reg.clients) == Admit(old(reg.clients), conn)
    ensures writes == if admitted then [] else KickWrites(t, conn)
    ensures reg.removals == old(reg.removals)
  {
    admitted := reg.Add(conn);
    if admitted {
      writes := [];
    } else {
      writes := [Write(conn, [t.sendKick])];
      writes := writes + [Write(conn, FullServerReason)];
    }
  }

  /** The kicks sent to the connections `cs`, one after another. */
  function KickAll<C(==, !new)>(t: Tags, cs: seq<C>): (ws: seq<Write<C>>)
    ensures |ws| == 2 * |cs|
  {
    if cs == [] then [] else KickAll(t, cs[..|cs| - 1]) + KickWrites(t, cs[|cs| - 1])
  }

  /** `n` copies of `s`, one after another. */
  function Repeat<T>(s: seq<T>, n: nat): (r: seq<T>)
    ensures |r| == n * |s|
  {
    if n == 0 then [] else Repeat(s, n - 1) + s
  }

  /** Each connection receives one SEND_KICK and "Full Server" pair per time
      it was refused, in that order, and a connection never refused receives
      nothing. */
  lemma {:induction false} KickAllReachesEach<C(!new)>(t: Tags, cs: seq<C>, c: C)
    ensures WritesTo(KickAll(t, cs), c) == Repeat([[t.sendKick], FullServerReason], multiset(cs)[c])
  {
    if cs != [] {
      var init, last := cs[..|cs| - 1], cs[|cs| - 1];
      assert cs == init + [last];
      KickAllReachesEach(t, init, c);
      KickAllSnoc(t, init, last, c);
      var pair := [[t.sendKick], FullServerReason];
      var n := multiset(init)[c];
      if last == c {
        assert multiset(cs)[c] == n + 1;
        assert Repeat(pair, n + 1) == Repeat(pair, n) + pair;
      } else {
        assert multiset(cs)[c] == n;
      }
    }
  }

  /** Kicking one more connection adds its pair to its own writes only. */
  lemma KickAllSnoc<C(!new)>(t: Tags, init: seq<C>, last: C, c: C)
    ensures WritesTo(KickAll(t, init + [last]), c) ==
              WritesTo(KickAll(t, init), c) + (if last == c then [[t.sendKick], FullServerReason] else [])
  {
    assert (init + [last])[..|init|] == init;
    var w1, w2 := Write(last, [t.sendKick]), Write(last, FullServerReason);
    assert KickAll(t, init + [last]) == KickAll(t, init) + [w1] + [w2];
    WritesToSnoc(KickAll(t, init), w1, c);
    WritesToSnoc(KickAll(t, init) + [w1], w2, c);
  }

  /** With no connection refused twice, each refused connection receives
      exactly SEND_KICK then "Full Server", and every other one nothing. */
  lemma KickAllDistinct<C(!new)>(t: Tags, cs: seq<C>, c: C)
    requires Distinct(cs)
    ensures WritesTo(KickAll(t, cs), c) == if c in cs then [[t.sendKick], FullServerReason] else []
  {
    KickAllReachesEach(t, cs, c);
    DistinctOnce(cs, c);
  }

  /** A connection occurs at most once in a sequence without repeats. */
  lemma {:induction false} DistinctOnce<C>(cs: seq<C>, c: C)
    requires Distinct(cs)
    ensures multiset(cs)[c] == if c in cs then 1 else 0
  {
    if cs != [] {
      var init, last := cs[..|cs| - 1], cs[|cs| - 1];
      assert cs == init + [last];
      DistinctOnce(init, c);
      assert last !in init by {
        forall j | 0 <= j < |init|
          ensures init[j] != last
        {
          assert cs[j] != cs[|cs| - 1];
        }
      }
    }
  }

  /** The connection of every `Leave` in `events`, in order: the sessions
      that ended and removed themselves. */
  function Leaves<C>(events: seq<Event<C>>): (cs: seq<C>)
    ensures |cs| <= |events|
  {
    if events == [] then []
    else
      var e := events[|events| - 1];
      Leaves(events[..|events| - 1]) + (if e.Leave? then [e.conn] else [])
  }

  /** A step refuses at most one connection; its kicks follow the earlier ones. */
  lemma KickAllExtend<C(!new)>(t: Tags, ks: seq<C>, r: seq<C>)
    requires |r| <= 1
    ensures KickAll(t, ks + r) == KickAll(t, ks) + KickAll(t, r)
  {
    if r == [] {
      assert ks + r == ks;
    } else {
      assert r == [] + [r[0]];
      KickAllAppend(t, ks, r[0]);
      KickAllAppend(t, [], r[0]);
    }
  }

  /** `KickAllReachesEach` for every connection at once. */
  lemma KickAllPerConnection<C(!new)>(t: Tags, ks: seq<C>)
    ensures forall c :: WritesTo(KickAll(t, ks), c) == Repeat([[t.sendKick], FullServerReason], multiset(ks)[c])
  {
    forall c
      ensures WritesTo(KickAll(t, ks), c) == Repeat([[t.sendKick], FullServerReason], multiset(ks)[c])
    {
      KickAllReachesEach(t, ks, c);
    }
  }

  /** A log holding the removals of the first `i` events, extended by the
      removal of event `i` (if it is one), holds those of the first `i + 1`. */
  lemma LeavesStep<C>(log0: seq<C>, events: seq<Event<C>>, i: nat, log: seq<C>)
    requires i < |events| && log == log0 + Leaves(events[..i])
    ensures log + (if events[i].Leave? then [events[i].conn] else []) == log0 + Leaves(events[..i + 1])
  {
    assert events[..i + 1][..i] == events[..i];
  }

  /** One more event extends the trace's outcome by that event's step. */
  lemma RunPrefixStep<C>(m: map<C, int>, events: seq<Event<C>>, i: nat)
    requires i < |events|
    ensures var before := Run(m, events[..i]);
            var step := Step(before.0, events[i]);
            Run(m, events[..i + 1]) == (step.0, before.1 + step.1)
  {
    assert events[..i + 1][..i] == events[..i];
  }

  /** One more refusal appends that connection's kick. */
  lemma KickAllAppend<C(!new)>(t: Tags, ks: seq<C>, c: C)
    ensures KickAll(t, ks + [c]) == KickAll(t, ks) + KickWrites(t, c)
  {
    assert (ks + [c])[..|ks|] == ks;
  }

  /** One event of the accept loop: an arrival is admitted or kicked; a
      session ending removes its connection. */
  method Apply<C(==, !new)>(reg: Registry<C>, t: Tags, e: Event<C>)
    returns (refused: seq<C>, writes: seq<Write<C>>)
    requires reg.Valid()
    modifies reg
    ensures reg.Valid()
    ensures (reg.clients, refused) == Step(old(reg.clients), e)
    ensures writes == KickAll(t, refused)
    ensures reg.removals == old(reg.removals) + (if e.Leave? then [e.conn] else [])
  {
    match e {
      case Arrive(c) =>
        var admitted;
        admitted, writes := Accept(reg, t, c);
        refused := if admitted then [] else [c];
        assert KickAll(t, [c]) == KickAll(t, []) + KickWrites(t, c);
      case Leave(c) =>
        reg.Remove(c);
        refused, writes := [], [];
    }
  }

  /** What the accept loop has done after the first `i` events, started
      from registry `m0` and removal log `log0`. */
  ghost predicate Served<C(!new)>(t: Tags, m0: map<C, int>, log0: seq<C>, events: seq<Event<C>>, i: nat,
                                  clients: map<C, int>, removals: seq<C>, kicked: seq<C>, writes: seq<Write<C>>)
    requires i <= |events|
  {
    (clients, kicked) == Run(m0, events[..i]) && writes == KickAll(t, kicked)
    && removals == log0 + Leaves(events[..i])
  }

  /** One event, applied as `Apply` does, keeps `Served`. */
  lemma ServedStep<C(!new)>(t: Tags, m0: map<C, int>, log0: seq<C>, events: seq<Event<C>>, i: nat,
                            clients: map<C, int>, removals: seq<C>, kicked: seq<C>, writes: seq<Write<C>>,
                            clients': map<C, int>, refused: seq<C>, w: seq<Write<C>>)
    requires i < |events| && Served(t, m0, log0, events, i, clients, removals, kicked, writes)
    requires (clients', refused) == Step(clients, events[i]) && w == KickAll(t, refused)
    ensures Served(t, m0, log0, events, i + 1, clients',
                   removals + (if events[i].Leave? then [events[i].conn] else []), kicked + refused, writes + w)
  {
    RunPrefixStep(m0, events, i);
    LeavesStep(log0, events, i, removals);
    KickAllExtend(t, kicked, refused);
  }

  /** The accept loop of `main` over a trace of arrivals, with the sessions
      that end in between removing their connections: the registry follows
      `Run`, the refused connections are exactly those `Run` refuses, each of
      them is kicked once per refusal while no one else is written to, and
      every session end is one `remove_client`, in order. */
  method Serve<C(==, !new)>(reg: Registry<C>, t: Tags, events: seq<Event<C>>)
    returns (kicked: seq<C>, writes: seq<Write<C>>)
    requires reg.Valid()
    modifies reg
    ensures reg.Valid()
    ensures (reg.clients, kicked) == Run(old(reg.clients), events)
    ensures writes == KickAll(t, kicked)
    ensures forall c :: WritesTo(writes, c) == Repeat([[t.sendKick], FullServerReason], multiset(kicked)[c])
    ensures reg.removals == old(reg.removals) + Leaves(events)
  {
    ghost var m0, log0 := reg.clients, reg.removals;
    kicked, writes := [], [];
    var i := 0;
    while i < |events|
      invariant 0 <= i <= |events| && reg.Valid()
      invariant Served(t, m0, log0, events, i, reg.clients, reg.removals, kicked, writes)
    {
      ghost var clients, removals := reg.clients, reg.removals;
      var refused, w := Apply(reg, t, events[i]);
      ServedStep(t, m0, log0, events, i, clients, removals, kicked, writes, reg.clients, refused, w);
      kicked, writes := kicked + refused, writes + w;
      i := i + 1;
    }
    assert events[..i] == events;
    KickAllPerConnection(t, kicked);
  }



}
