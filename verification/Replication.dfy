/** The replication client of src/client.c: records handed to client_sync go through a shared queue
    to every server; a server that cannot be reached keeps its own retry queue. Connecting and
    writing may fail at any time.
 */
module Replication {
  import opened Common

  const SEND_BUFFER := 4096

  /** A record as var_dump sees it: its name and the text of its data. */
  datatype Rec = Rec(name: string, text: string)

  /** var_dump into the send buffer. Only an oversized name is reported as a failure; when the
      data does not fit, the length goes back by one and the line ends after the name. */
  function Dump(r: Rec): (line: Option<string>)
    ensures line.None? <==> |r.name| >= 4095
    ensures line == Some(r.name + "=" + r.text) <==> |r.name| + 1 + |r.text| < 4095
    ensures line in {None, Some(r.name), Some(r.name + "=" + r.text)}
  {
    var size := SEND_BUFFER - 1;
    if |r.name| >= size then None
    else
      var len := |r.name| + 1;
      if |r.text| >= size - len then
        assert |r.name| != |r.name + "=" + r.text|;
        Some(r.name)
      else Some(r.name + "=" + r.text)
  }

  predicate Dumpable(r: Rec) {
    Dump(r).Some?
  }

  ghost predicate AllDumpable(q: seq<Rec>) {
    forall i :: 0 <= i < |q| ==> Dumpable(q[i])
  }

  /** The lines on the wire for a sequence of records. */
  ghost function Lines(q: seq<Rec>): seq<string>
    requires AllDumpable(q)
  {
    seq(|q|, i requires 0 <= i < |q| => Dump(q[i]).value)
  }

  /** What a server's end of the wire sees: a new connection, a complete line, or the beginning of a
      line that a failing write has cut. */
  datatype Chunk = Opened | Line(text: string) | Torn(text: string)

  /** The complete lines. */
  ghost function Complete(wire: seq<Chunk>): seq<string> {
    if wire == [] then []
    else
      var last := wire[|wire| - 1];
      Complete(wire[..|wire| - 1]) + if last.Line? then [last.text] else []
  }

  /** A torn line is the last thing on its connection. */
  ghost predicate WellCut(wire: seq<Chunk>) {
    forall i {:trigger CutAt(wire, i)} :: 0 <= i < |wire| - 1 ==> CutAt(wire, i)
  }

  ghost predicate CutAt(wire: seq<Chunk>, i: nat)
    requires i + 1 < |wire|
  {
    wire[i].Torn? ==> wire[i + 1].Opened?
  }

  ghost predicate EndsTorn(wire: seq<Chunk>) {
    wire != [] && wire[|wire| - 1].Torn?
  }

  /** A part of the line was sent. */
  ghost predicate EndsCut(before: seq<Chunk>, wire: seq<Chunk>, line: string) {
    exists k :: CutAfter(before, wire, line, k)
  }

  ghost predicate CutAfter(before: seq<Chunk>, wire: seq<Chunk>, line: string, k: int) {
    0 < k <= |line| && wire == before + [Torn(line[..k])]
  }

  lemma AppendChunk(wire: seq<Chunk>, c: Chunk)
    requires WellCut(wire) && (EndsTorn(wire) ==> c.Opened?)
    ensures WellCut(wire + [c]) && (EndsTorn(wire + [c]) <==> c.Torn?)
    ensures Complete(wire + [c]) == Complete(wire) + if c.Line? then [c.text] else []
  {
    var more := wire + [c];
    assert more[..|wire|] == wire;
    forall i | 0 <= i < |more| - 1 ensures CutAt(more, i) {
      assert i < |wire| - 1 ==> CutAt(wire, i);
    }
  }

  /** How sock_connect and write end: an answer for every call during every event. A write accepts
      everything, or as many bytes as the answer says; a negative one is a failure. */
  class Network {
    const connects: (nat, nat) -> bool
    const writes: (nat, nat) -> Option<int>
    var event: nat
    var call: nat

    constructor (connects: (nat, nat) -> bool, writes: (nat, nat) -> Option<int>)
      ensures this.connects == connects && this.writes == writes && event == 0
    {
      this.connects, this.writes, event, call := connects, writes, 0, 0;
    }

    ghost predicate Succeeds(e: nat, k: nat) {
      connects(e, k) && writes(e, k) == None
    }

    /** Nothing fails during event e. The quantifier is instantiated only where a proof names Succeeds. */
    ghost predicate Good(e: nat) {
      forall k {:trigger Succeeds(e, k)} :: Succeeds(e, k)
    }

    /** sock_connect */
    method Connect() returns (ok: bool)
      modifies this`call
      ensures ok == connects(event, old(call)) && call == old(call) + 1
      ensures Good(event) ==> ok
    {
      assert Good(event) ==> Succeeds(event, call);
      ok := connects(event, call);
      call := call + 1;
    }

    /** write, of a line of the given length */
    method Write(len: nat) returns (count: int)
      modifies this`call
      ensures -1 <= count <= len && call == old(call) + 1
      ensures count == len <==> Accepts(writes(event, old(call)), len)
      ensures Good(event) ==> count == len
    {
      assert Good(event) ==> Succeeds(event, call);
      var answer := writes(event, call);
      call := call + 1;
      count := if answer.None? || answer.value > len then len else if answer.value < -1 then -1 else answer.value;
    }

    predicate Accepts(answer: Option<int>, len: nat) {
      answer.None? || answer.value >= len
    }
  }

  class Client {
    /** c_socket != -1 */
    var connected: bool
    /** c_queue */
    var queue: seq<Rec>
    /** What write has accepted, and the records that its complete lines stand for. */
    var wire: seq<Chunk>
    ghost var written: seq<Rec>

    constructor ()
      ensures IsNew()
    {
      connected, queue, wire, written := false, [], [], [];
    }

    ghost predicate IsNew()
      reads this
    {
      !connected && queue == [] && wire == [] && written == []
    }

    /** The lines on the wire are those of the records written, and nothing follows a torn line on
        its connection. */
    ghost predicate Sound()
      reads this
    {
      && AllDumpable(written) && Complete(wire) == Lines(written)
      && WellCut(wire) && (connected ==> !EndsTorn(wire))
    }

    /** At every boundary of the update loop: a connected server has nothing to retry. */
    ghost predicate Settled()
      reads this
    {
      connected ==> queue == []
    }

    ghost predicate Holds(queue: seq<Rec>, written: seq<Rec>)
      reads this
    {
      this.queue == queue && this.written == written
    }

    /** Connected exactly if there is nothing to retry. */
    ghost predicate Idle()
      reads this
    {
      connected <==> queue == []
    }

    /** client_flush: send the retry queue from its head; the record that fails goes back. */
    method Flush(net: Network)
      requires Sound() && connected
      modifies this, net`call
      ensures Sound() && written + queue == old(written + queue)
      ensures queue == [] ==> connected
      ensures AllDumpable(old(queue)) ==> AllDumpable(queue) && Idle()
      ensures AllDumpable(old(queue)) && net.Good(net.event) ==> connected && queue == []
      decreases 1, 0
    {
      while queue != []
        invariant Sound() && connected
        invariant written + queue == old(written + queue)
        invariant AllDumpable(old(queue)) ==> AllDumpable(queue)
        decreases |queue|
      {
        MoveHead(written, queue);
        var ok := FlushHead(net);
        if !ok {
          return;
        }
      }
    }

    /** One turn of the loop: the head of the queue is sent or pushed back. */
    method FlushHead(net: Network) returns (ok: bool)
      requires Sound() && connected && queue != []
      modifies this, net`call
      ensures Sound()
      ensures ok ==> connected && queue == old(queue[1..]) && written == old(written + [queue[0]])
      ensures !ok ==> queue == old(queue) && written == old(written) && (Dumpable(queue[0]) ==> !connected)
      ensures Dumpable(old(queue[0])) && net.Good(net.event) ==> ok
      decreases 0, 2
    {
      var record := queue[0];
      queue := queue[1..];
      ok := Send(net, record);
      if !ok {
        queue := [record] + queue;
      }
    }

    /** client_connect; sock_connect succeeds or not. The result is success even if flushing the
        queue has lost the connection again. */
    method Connect(net: Network) returns (ok: bool)
      requires Sound() && !connected
      modifies this, net`call
      ensures Sound() && written + queue == old(written + queue)
      ensures !ok ==> !connected
      ensures queue == [] && ok ==> connected
      ensures AllDumpable(old(queue)) ==> AllDumpable(queue) && Settled()
      ensures AllDumpable(old(queue)) && net.Good(net.event) ==> ok && connected && queue == []
      decreases 2, 0
    {
      connected := net.Connect();
      if !connected {
        return false;
      }
      AppendChunk(wire, Opened);
      wire := wire + [Opened];
      if |queue| > 0 {
        Flush(net);
      }
      return true;
    }

    /** client_send; write fails, or accepts any part of the line. A record that cannot be dumped fails
        without closing the connection. */
    method Send(net: Network, record: Rec) returns (ok: bool)
      requires Sound()
      modifies this, net`call
      ensures Sound() && (ok ==> connected) && (Dumpable(record) && !ok ==> !connected) && (!Dumpable(record) ==> !ok)
      ensures old(connected) ==> queue == old(queue) && written == old(written) + (if ok then [record] else [])
      ensures old(connected) && Dumpable(record) ==>
        var line := Dump(record).value;
        && (ok <==> net.Accepts(net.writes(net.event, old(net.call)), |line| + 1))
        && (ok ==> wire == old(wire) + [Line(line)])
      ensures old(connected) && !Dumpable(record) ==> connected
      ensures !ok ==> written + queue == old(written + queue)
      ensures ok ==> SameRecords(written + queue, old(written + queue) + [record])
      ensures !old(connected) && AllDumpable(old(queue)) ==>
        AllDumpable(queue) && Settled() && written + queue == old(written + queue) + (if ok then [record] else [])
      ensures Dumpable(record) && net.Good(net.event) && (old(connected) || AllDumpable(old(queue))) ==>
        ok && (old(connected) || queue == [])
      decreases if connected then 0 else 3, 1
    {
      if !connected {
        var _ := Connect(net);
      }
      if !connected {
        return false;
      }
      InsertBetween(written, record, queue);
      ok := SendLine(net, record);
    }

    /** The part of client_send on a connection. */
    method SendLine(net: Network, record: Rec) returns (ok: bool)
      requires Sound() && connected
      modifies this, net`call
      ensures Sound() && queue == old(queue)
      ensures Dumpable(record) ==> (ok <==> net.Accepts(net.writes(net.event, old(net.call)), |Dump(record).value| + 1))
      ensures ok ==> Dumpable(record) && wire == old(wire) + [Line(Dump(record).value)]
      ensures !ok ==> wire == old(wire) || (Dumpable(record) && EndsCut(old(wire), wire, Dump(record).value))
      ensures written == old(written) + (if ok then [record] else [])
      ensures if Dumpable(record) then connected == ok else connected && !ok
      ensures Dumpable(record) && net.Good(net.event) ==> ok
      decreases 0, 0
    {
      var line := Dump(record);
      if line.None? {
        return false;
      }
      var len := |line.value| + 1;
      var count := net.Write(len);
      if count < len {
        if count > 0 {
          AppendChunk(wire, Torn(line.value[..count]));
          wire := wire + [Torn(line.value[..count])];
          assert CutAfter(old(wire), wire, line.value, count);
        }
        connected := false;
        return false;
      }
      LinesAppend(written, record);
      AppendChunk(wire, Line(line.value));
      wire := wire + [Line(line.value)];
      written := written + [record];
      return true;
    }

    /** The body of client_update for one server: send, or keep the record for a retry
        (client_enqueue). Nothing is lost or doubled; the order is kept from a settled server on,
        and a connected one stays settled exactly if the record can be dumped. */
    method SendOrKeep(net: Network, record: Rec) returns (ok: bool)
      requires Sound()
      modifies this, net`call
      ensures Sound() && (ok ==> connected)
      ensures SameRecords(written + queue, old(written + queue) + [record])
      ensures old(Settled()) && AllDumpable(old(queue)) ==> written + queue == old(written + queue) + [record]
      ensures old(Settled()) && AllDumpable(old(queue)) && Dumpable(record) ==>
        AllDumpable(queue) && Settled() && ok == connected
      ensures old(connected) && old(queue) == [] ==> (Settled() <==> Dumpable(record))
      ensures old(Settled()) && AllDumpable(old(queue)) && Dumpable(record) && net.Good(net.event) ==> ok && queue == []
    {
      ghost var w, q, c := written, queue, connected;
      ok := Send(net, record);
      if !ok {
        ghost var q1 := queue;
        assert written + q1 == w + q;
        queue := queue + [record];
        assert written + (q1 + [record]) == (written + q1) + [record];
      } else if c {
        assert q == [] ==> (w + [record]) + q == (w + q) + [record];
      }
    }
  }

  /** How often a record occurs. */
  ghost function Count(q: seq<Rec>, r: Rec): nat {
    multiset(q)[r]
  }

  /** The same records, each as often. The quantifier is instantiated only where a proof names Count. */
  ghost predicate SameRecords(a: seq<Rec>, b: seq<Rec>) {
    forall r {:trigger Count(a, r)} :: Count(a, r) == Count(b, r)
  }

  lemma MoveHead(a: seq<Rec>, q: seq<Rec>)
    requires q != []
    ensures (a + [q[0]]) + q[1..] == a + q
    ensures AllDumpable(q) ==> Dumpable(q[0]) && AllDumpable(q[1..])
  {
  }

  lemma CountConcat(a: seq<Rec>, b: seq<Rec>, r: Rec)
    ensures Count(a + b, r) == Count(a, r) + Count(b, r)
  {
  }

  lemma InsertBetween(a: seq<Rec>, x: Rec, b: seq<Rec>)
    ensures SameRecords((a + [x]) + b, (a + b) + [x])
    ensures b == [] ==> (a + [x]) + b == (a + b) + [x]
  {
    forall r ensures Count((a + [x]) + b, r) == Count((a + b) + [x], r) {
      CountConcat(a + [x], b, r);
      CountConcat(a, [x], r);
      CountConcat(a + b, [x], r);
      CountConcat(a, b, r);
    }
  }

  lemma LinesAppend(q: seq<Rec>, r: Rec)
    requires AllDumpable(q) && Dumpable(r)
    ensures AllDumpable(q + [r]) && Lines(q + [r]) == Lines(q) + [Dump(r).value]
  {
  }

  // ---------------------------------------------------------------- all servers

  class Replicator {
    /** client_servers */
    const servers: seq<Client>
    /** client_queue */
    var pending: seq<Rec>
    /** Everything handed to client_sync so far. */
    ghost var synced: seq<Rec>

    constructor (servers: seq<Client>)
      requires forall i, j :: 0 <= i < j < |servers| ==> servers[i] != servers[j]
      requires forall i :: 0 <= i < |servers| ==> servers[i].IsNew()
      ensures this.servers == servers && Valid() && synced == [] && pending == []
    {
      this.servers, pending, synced := servers, [], [];
      new;
      forall i | 0 <= i < |servers| ensures Current(servers[i], []) {
      }
    }

    /** What was written to the server, what it has to retry and what is still to come are together
        everything handed over, once; and in order, if all of it can be dumped. */
    ghost predicate Current(s: Client, rest: seq<Rec>)
      reads this, s
    {
      && s.Sound()
      && SameRecords(s.written + s.queue + rest, synced)
      && (AllDumpable(synced) ==> s.Settled() && s.written + s.queue + rest == synced)
    }

    ghost predicate Distinct() {
      forall i, j {:trigger servers[i], servers[j]} :: 0 <= i < j < |servers| ==> servers[i] != servers[j]
    }

    ghost predicate Valid()
      reads this, servers
    {
      Distinct() && forall i {:trigger Current(servers[i], pending)} ::
        0 <= i < |servers| ==> Current(servers[i], pending)
    }

    /** client_sync */
    method Sync(record: Rec)
      requires Valid()
      modifies this
      ensures Valid()
      ensures servers != [] ==> synced == old(synced) + [record] && pending == old(pending) + [record]
      ensures servers == [] ==> synced == old(synced)
    {
      if |servers| == 0 {
        return;
      }
      ghost var before := pending;
      ghost var all := synced;
      assert forall i :: 0 <= i < |servers| ==> Current(servers[i], before);
      pending := pending + [record];
      synced := synced + [record];
      forall i | 0 <= i < |servers| ensures Current(servers[i], pending) {
        var s := servers[i];
        OneMore(s.written + s.queue, before, all, record);
      }
    }

    method SendToOne(net: Network, s: Client, record: Rec, ghost rest: seq<Rec>) returns (ok: bool)
      requires Current(s, [record] + rest)
      modifies s, net`call
      ensures Current(s, rest) && (ok ==> s.connected)
      ensures net.Good(net.event) && AllDumpable(synced) ==> ok
    {
      ghost var before := s.written + s.queue;
      Parts(s.written, s.queue, [record] + rest, synced);
      assert ([record] + rest)[0] == record;
      ok := s.SendOrKeep(net, record);
      Pass(before, record, rest, s.written + s.queue, synced);
    }

    /** The inner loop of client_update: one record to every server. */
    method SendToAll(net: Network, record: Rec, ghost rest: seq<Rec>) returns (failures: nat)
      requires Distinct()
      requires forall i {:trigger Current(servers[i], [record] + rest)} ::
        0 <= i < |servers| ==> Current(servers[i], [record] + rest)
      modifies servers, net`call
      ensures net.Good(net.event) && AllDumpable(synced) ==> failures == 0
      ensures forall i {:trigger Current(servers[i], rest)} :: 0 <= i < |servers| ==> Current(servers[i], rest)
      ensures failures == 0 ==> forall i :: 0 <= i < |servers| ==> servers[i].connected
    {
      failures := 0;
      for i := 0 to |servers|
        invariant forall j {:trigger Current(servers[j], rest)} :: 0 <= j < i ==> Current(servers[j], rest)
        invariant forall j {:trigger Current(servers[j], [record] + rest)} ::
          i <= j < |servers| ==> Current(servers[j], [record] + rest)
        invariant failures == 0 ==> forall j :: 0 <= j < i ==> servers[j].connected
        invariant net.Good(net.event) && AllDumpable(synced) ==> failures == 0
      {
        var s := servers[i];
        assert Current(s, [record] + rest);
        var ok := SendToOne(net, s, record, rest);
        if !ok {
          failures := failures + 1;
        }
      }
    }

    /** client_update: hand out the shared queue. Nothing is incomplete if nothing fails, and then every
        server has been sent everything. */
    method Update(net: Network) returns (incomplete: nat)
      requires Valid()
      modifies this`pending, servers, net`call
      ensures Valid() && pending == [] && synced == old(synced)
      ensures incomplete == 0 && old(pending) != [] && AllDumpable(synced) ==>
        AllSent() && forall i :: 0 <= i < |servers| ==> servers[i].connected
      ensures net.Good(net.event) && AllDumpable(synced) ==> incomplete == 0
    {
      incomplete := 0;
      ghost var handed := false;
      while pending != []
        invariant Valid() && synced == old(synced)
        invariant !handed ==> pending == old(pending)
        invariant handed && incomplete == 0 ==> forall i :: 0 <= i < |servers| ==> servers[i].connected
        invariant net.Good(net.event) && AllDumpable(synced) ==> incomplete == 0
        decreases |pending|
      {
        var failures := HandOut(net);
        incomplete := incomplete + failures;
        handed := true;
      }
      if incomplete == 0 && handed && AllDumpable(synced) { ConnectedMeansSent(); }
    }

    /** One turn of the loop: the head of the shared queue goes to every server. */
    method HandOut(net: Network) returns (failures: nat)
      requires Valid() && pending != []
      modifies this`pending, servers, net`call
      ensures Valid() && pending == old(pending[1..])
      ensures failures == 0 ==> forall i :: 0 <= i < |servers| ==> servers[i].connected
      ensures net.Good(net.event) && AllDumpable(synced) ==> failures == 0
    {
      var record := pending[0];
      ghost var all := pending;
      assert all == [record] + all[1..];
      assert forall i :: 0 <= i < |servers| ==> Current(servers[i], all);
      pending := pending[1..];
      failures := SendToAll(net, record, pending);
    }

    lemma ConnectedMeansSent()
      requires Valid() && pending == [] && AllDumpable(synced)
      requires forall i :: 0 <= i < |servers| ==> servers[i].connected
      ensures AllSent()
    {
      forall i | 0 <= i < |servers| ensures servers[i].Holds([], synced) {
        assert Current(servers[i], pending);
        assert servers[i].written + [] + [] == servers[i].written;
      }
    }

    method ReconnectOne(net: Network, s: Client) returns (ok: bool)
      requires Current(s, pending) && !s.connected
      modifies s, net`call
      ensures Current(s, pending) && (ok && AllDumpable(synced) ==> s.Idle())
      ensures net.Good(net.event) && AllDumpable(synced) ==> ok && s.connected
    {
      Parts(s.written, s.queue, pending, synced);
      ok := s.Connect(net);
    }

    /** client_reconnect: try the servers that are down. A result of zero does not mean that all
        are up: those with something left to retry have been lost again. */
    method Reconnect(net: Network) returns (disconnected: nat)
      requires Valid()
      modifies servers, net`call
      ensures Valid()
      ensures net.Good(net.event) && AllDumpable(synced) ==>
        disconnected == 0 && forall i :: 0 <= i < |servers| ==> servers[i].connected && servers[i].Idle()
      ensures net.Good(net.event) && AllDumpable(synced) && pending == [] ==> AllSent()
      ensures disconnected == 0 && AllDumpable(synced) ==> forall i :: 0 <= i < |servers| ==> servers[i].Idle()
    {
      disconnected := 0;
      for i := 0 to |servers|
        invariant Valid()
        invariant disconnected == 0 && AllDumpable(synced) ==> forall j :: 0 <= j < i ==> servers[j].Idle()
        invariant net.Good(net.event) && AllDumpable(synced) ==>
          disconnected == 0 && forall j :: 0 <= j < i ==> servers[j].connected
      {
        var s := servers[i];
        assert Current(s, pending);
        if s.connected {
          continue;
        }
        var ok := ReconnectOne(net, s);
        if !ok {
          disconnected := disconnected + 1;
        }
        assert Current(s, pending);
      }
      if AllDumpable(synced) && pending == [] && net.Good(net.event) { ConnectedMeansSent(); }
    }

    /** The body of the loop of client_main; incomplete is what the last update or retry has left. */
    method Handle(net: Network, event: Event, incomplete: nat) returns (left: nat)
      requires Valid() && servers != []
      modifies this, servers, net`call
      ensures Valid()
      ensures event.Handed? ==> left == incomplete && synced == old(synced) + [event.record]
      ensures event.Handed? ==> pending == old(pending) + [event.record]
      ensures !event.Handed? ==> synced == old(synced)
      ensures event.Woken? ==> pending == []
      ensures event.Woken? && old(pending) != [] && AllDumpable(synced) && (left == 0 || net.Good(net.event)) ==>
        left == 0 && AllSent()
      ensures event.TimedOut? ==> pending == old(pending)
      ensures event.TimedOut? && AllDumpable(synced) && pending == [] && net.Good(net.event) ==>
        (incomplete > 0 || old(AllSent()) ==> AllSent())
    {
      left := incomplete;
      match event {
        case Handed(record) => Sync(record);
        case Woken => left := Update(net);
        case TimedOut => if incomplete > 0 { left := Reconnect(net); }
      }
    }

    /** Every server has been sent everything and has nothing to retry. */
    ghost predicate AllSent()
      reads this, servers
    {
      forall i :: 0 <= i < |servers| ==> servers[i].Holds([], synced)
    }
  }

  // The steps of the queues, on sequences.

  lemma OneMore(a: seq<Rec>, rest: seq<Rec>, all: seq<Rec>, x: Rec)
    requires SameRecords(a + rest, all)
    ensures SameRecords(a + (rest + [x]), all + [x])
    ensures a + rest == all ==> a + (rest + [x]) == all + [x]
    ensures AllDumpable(all + [x]) ==> AllDumpable(all)
  {
    assert a + (rest + [x]) == (a + rest) + [x];
    forall r ensures Count((a + rest) + [x], r) == Count(all + [x], r) {
      CountConcat(a + rest, [x], r);
      CountConcat(all, [x], r);
    }
    if AllDumpable(all + [x]) {
      forall i | 0 <= i < |all| ensures Dumpable(all[i]) {
        assert (all + [x])[i] == all[i];
      }
    }
  }

  /** The record at the head of the rest has been handed over. */
  lemma Pass(a: seq<Rec>, x: Rec, rest: seq<Rec>, b: seq<Rec>, all: seq<Rec>)
    requires SameRecords(a + ([x] + rest), all) && SameRecords(b, a + [x])
    ensures SameRecords(b + rest, all)
    ensures b == a + [x] ==> b + rest == a + ([x] + rest)
  {
    assert a + ([x] + rest) == (a + [x]) + rest;
    forall r ensures Count(b + rest, r) == Count(all, r) {
      CountConcat(b, rest, r);
      CountConcat(a + [x], rest, r);
      assert Count(b, r) == Count(a + [x], r);
      assert Count((a + [x]) + rest, r) == Count(all, r);
    }
  }

  lemma Parts(a: seq<Rec>, b: seq<Rec>, c: seq<Rec>, all: seq<Rec>)
    requires AllDumpable(all) ==> a + b + c == all
    ensures AllDumpable(all) ==> AllDumpable(a) && AllDumpable(b) && AllDumpable(c)
  {
    if AllDumpable(all) {
      forall i | 0 <= i < |a| ensures Dumpable(a[i]) { assert all[i] == a[i]; }
      forall i | 0 <= i < |b| ensures Dumpable(b[i]) { assert all[|a| + i] == b[i]; }
      forall i | 0 <= i < |c| ensures Dumpable(c[i]) { assert all[|a| + |b| + i] == c[i]; }
    }
  }

  // ---------------------------------------------------------------- whole runs

  /** What the client thread reacts to: a record handed over, a wakeup, a timeout. */
  datatype Event = Handed(record: Rec) | Woken | TimedOut

  /** The records handed over by the first n events. */
  function HandedOver(events: seq<Event>, n: nat): seq<Rec>
    requires n <= |events|
  {
    if n == 0 then []
    else HandedOver(events, n - 1) + if events[n - 1].Handed? then [events[n - 1].record] else []
  }

  /** A record has been handed over since the last wakeup. */
  predicate Waiting(events: seq<Event>, n: nat)
    requires n <= |events|
  {
    n > 0 && (events[n - 1].Handed? || (events[n - 1].TimedOut? && Waiting(events, n - 1)))
  }

  /** The last of the first n events is a wakeup for a record, and nothing fails during it. */
  ghost predicate Updated(net: Network, events: seq<Event>, n: nat)
    requires n <= |events|
  {
    n > 0 && events[n - 1].Woken? && Waiting(events, n - 1) && net.Good(n - 1)
  }

  /** The last of the first n events is a timeout right after such a wakeup, and nothing fails during it. */
  ghost predicate Retried(net: Network, events: seq<Event>, n: nat)
    requires n <= |events|
  {
    n > 1 && events[n - 1].TimedOut? && events[n - 2].Woken? && Waiting(events, n - 2) && net.Good(n - 1)
  }

  /** Replication is exactly once, and in order for records that fit the send buffer: over every run
      of client_main, however connects and writes end, what each server has been sent, its retry queue and
      the shared queue are together what was handed over. And it makes progress: after a wakeup during
      which nothing fails, and after one that failed and a timeout during which nothing fails, every server
      has been sent everything. */
  method Run(count: nat, net: Network, events: seq<Event>)
    returns (wires: seq<seq<Chunk>>, queues: seq<seq<Rec>>, pending: seq<Rec>)
    requires count > 0
    modifies net
    ensures |wires| == |queues| == count
    ensures forall i :: 0 <= i < count ==> Delivered(wires[i], queues[i], pending, HandedOver(events, |events|))
    ensures var all := HandedOver(events, |events|);
      AllDumpable(all) && (Updated(net, events, |events|) || Retried(net, events, |events|)) ==>
        pending == [] && forall i :: 0 <= i < count ==> queues[i] == [] && Complete(wires[i]) == Lines(all)
  {
    var servers := NewClients(count);
    var r := new Replicator(servers);
    var incomplete := 0;
    for n := 0 to |events|
      invariant r.Valid() && r.servers == servers && r.synced == HandedOver(events, n)
      invariant fresh(r) && forall i :: 0 <= i < |servers| ==> fresh(servers[i])
      invariant r.pending != [] <==> Waiting(events, n)
      invariant AllDumpable(r.synced) && n > 0 && events[n - 1].Woken? && Waiting(events, n - 1) && incomplete == 0 ==>
        r.AllSent()
      invariant AllDumpable(r.synced) && Updated(net, events, n) ==> incomplete == 0
      invariant AllDumpable(r.synced) && Retried(net, events, n) ==> r.AllSent()
    {
      net.event, net.call := n, 0;
      incomplete := r.Handle(net, events[n], incomplete);
    }
    pending := r.pending;
    wires, queues := Observe(r);
  }

  /** The wire carries the lines of the records sent; these, the retry queue and the shared queue
      are all the records, each once, and in order if all of them can be dumped. */
  ghost predicate Accounts(wire: seq<Chunk>, sent: seq<Rec>, queue: seq<Rec>, pending: seq<Rec>, all: seq<Rec>) {
    && AllDumpable(sent) && Complete(wire) == Lines(sent) && WellCut(wire)
    && SameRecords(sent + queue + pending, all)
    && (AllDumpable(all) ==> sent + queue + pending == all)
  }

  ghost predicate Delivered(wire: seq<Chunk>, queue: seq<Rec>, pending: seq<Rec>, all: seq<Rec>) {
    exists sent :: Accounts(wire, sent, queue, pending, all)
  }

  /** What can be seen at the servers and in their retry queues. */
  method Observe(r: Replicator) returns (wires: seq<seq<Chunk>>, queues: seq<seq<Rec>>)
    requires r.Valid()
    ensures |wires| == |queues| == |r.servers|
    ensures forall i :: 0 <= i < |r.servers| ==> Delivered(wires[i], queues[i], r.pending, r.synced)
    ensures forall i :: 0 <= i < |r.servers| ==> queues[i] == r.servers[i].queue && wires[i] == r.servers[i].wire
  {
    wires, queues := [], [];
    for i := 0 to |r.servers|
      invariant |wires| == |queues| == i
      invariant forall j :: 0 <= j < i ==> Delivered(wires[j], queues[j], r.pending, r.synced)
      invariant forall j :: 0 <= j < i ==> queues[j] == r.servers[j].queue && wires[j] == r.servers[j].wire
    {
      var s := r.servers[i];
      assert r.Current(s, r.pending);
      assert Accounts(s.wire, s.written, s.queue, r.pending, r.synced);
      wires, queues := wires + [s.wire], queues + [s.queue];
    }
  }

  method NewClients(count: nat) returns (servers: seq<Client>)
    ensures |servers| == count && forall i :: 0 <= i < count ==> fresh(servers[i])
    ensures forall i, j :: 0 <= i < j < count ==> servers[i] != servers[j]
    ensures forall i :: 0 <= i < count ==> servers[i].IsNew()
  {
    servers := [];
    for n := 0 to count
      invariant |servers| == n && forall i :: 0 <= i < n ==> fresh(servers[i])
      invariant forall i, j :: 0 <= i < j < n ==> servers[i] != servers[j]
      invariant forall i :: 0 <= i < n ==> servers[i].IsNew()
    {
      var c := new Client();
      servers := servers + [c];
    }
  }
}
