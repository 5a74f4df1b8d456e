/**
  The echo server of Project1/server.cpp: `startServer` keeps a map from
  client socket to client address and, on each turn of its event loop,
  accepts a new client when the listening socket is ready, reads one
  4-byte message from every ready client in ascending socket order, echoes
  it back, and afterwards erases the clients that closed their connection.

  `select`, `accept`, `recv` and `send` are operating-system calls; each
  turn receives what they returned as inputs (`Select`, `AcceptResult`
  and a per-socket `PeerIO`). The endless loop is run over a finite
  sequence of such turns.
*/
module Server {
  import opened Wrappers
  import opened Utils
  import opened Sockets

  /** What `select` returned: an error, or the set of ready sockets (empty when it returned 0). */
  datatype Select = SelectFailed | Selected(ready: set<int>)

  /** What `accept` on the listening socket returned. */
  datatype AcceptResult = Accepted(fd: int, peer: Addr) | AcceptFailed

  /** What `recv` on a client socket returned, and what the `send` of the echo would return. */
  datatype PeerIO = PeerIO(recv: RecvResult, send: SendResult)

  /** The "recv from …" line for client `fd` at `peer`, followed by the `send` of `value` back to it. */
  datatype Echo = Echo(fd: int, peer: Addr, value: int)

  /**
    The result of one turn: whether it returned 1 (`fatal`), the client
    map it leaves (as it stood at the return when fatal), and the echoes
    made, in order.
  */
  datatype Pass = Pass(fatal: bool, clients: map<int, Addr>, echoes: seq<Echo>)

  /** `std::map::emplace`: inserts the entry only when the key is absent, never overwriting. */
  function Emplace(m: map<int, Addr>, fd: int, peer: Addr): (r: map<int, Addr>)
    ensures r.Keys == m.Keys + {fd}
    ensures forall k :: k in m ==> r[k] == m[k]
    ensures fd !in m ==> r[fd] == peer
  {
    if fd in m then m else m[fd := peer]
  }

  /** `k` is the least element of `s`. */
  predicate IsLeast(k: int, s: set<int>) {
    k in s && forall j :: j in s ==> k <= j
  }

  /** A finite non-empty set of integers has a least element. */
  lemma MinExists(s: set<int>)
    requires s != {}
    ensures exists k :: IsLeast(k, s)
  {
    var empty: set<int> := {};
    assert (forall y :: y in s <==> y in empty) ==> s == empty;
    var x :| x in s;
    var rest := s - {x};
    if rest == {} {
      forall j | j in s ensures x <= j {
        assert j !in rest;
      }
      assert IsLeast(x, s);
    } else {
      MinExists(rest);
      var k :| IsLeast(k, rest);
      var least := if x < k then x else k;
      forall j | j in s ensures least <= j {
        if j != x {
          assert j in rest;
        }
      }
      assert IsLeast(least, s);
    }
  }

  /** The keys of a `std::map` in the order its iterators visit them: ascending, each once. */
  function Ascending(s: set<int>): (r: seq<int>)
    ensures forall x :: x in r <==> x in s
    ensures forall a, b :: 0 <= a < b < |r| ==> r[a] < r[b]
    decreases s
  {
    if s == {} then []
    else
      MinExists(s);
      var k :| IsLeast(k, s);
      [k] + Ascending(s - {k})
  }

  /** The client map after the accept step of a turn whose `select` reported `ready`. */
  function AfterAccept(listenFD: int, clients: map<int, Addr>, ready: set<int>, accept: AcceptResult): map<int, Addr> {
    if listenFD in ready && accept.Accepted? then Emplace(clients, accept.fd, accept.peer) else clients
  }

  /** An outcome that makes `startServer` return 1: a `recv` or `send` error other than ECONNRESET. */
  predicate FatalIO(io: PeerIO) {
    || (io.recv.RecvFailed? && io.recv.err != ECONNRESET)
    || (io.recv.Received? && io.send.SendFailed? && io.send.err != ECONNRESET)
  }

  /** What the scan over the clients collects: whether it returned 1, the sockets to close, the echoes. */
  datatype Scanned = Scanned(fatal: bool, closed: seq<int>, echoes: seq<Echo>)

  /** Every socket of `order` is a key of `m`. */
  predicate Keyed(order: seq<int>, m: map<int, Addr>) {
    forall k :: 0 <= k < |order| ==> order[k] in m
  }

  /** The scan over the clients from position `i` of their visiting order. */
  function PollFrom(order: seq<int>, i: nat, m: map<int, Addr>, ready: set<int>, io: int -> PeerIO): Scanned
    requires Keyed(order, m)
    decreases |order| - i
  {
    if i >= |order| then Scanned(false, [], [])
    else
      var fd := order[i];
      if fd !in ready then PollFrom(order, i + 1, m, ready, io)
      else match io(fd).recv
        case RecvFailed(e) =>
          if e != ECONNRESET then Scanned(true, [], []) else PollFrom(order, i + 1, m, ready, io)
        case RecvClosed =>
          var r := PollFrom(order, i + 1, m, ready, io);
          r.(closed := [fd] + r.closed)
        case Received(v) =>
          var echo := Echo(fd, m[fd], v);
          if io(fd).send.SendFailed? && io(fd).send.err != ECONNRESET then Scanned(true, [], [echo])
          else
            var r := PollFrom(order, i + 1, m, ready, io);
            r.(echoes := [echo] + r.echoes)
  }

  /** What a prefix of the scan collected, followed by what the rest collects. */
  function Join(closed: seq<int>, echoes: seq<Echo>, r: Scanned): Scanned {
    Scanned(r.fatal, closed + r.closed, echoes + r.echoes)
  }

  /** Unfolding the scan at position `i`, after a prefix that collected `closed` and `echoes`. */
  lemma PollStep(order: seq<int>, i: nat, m: map<int, Addr>, ready: set<int>, io: int -> PeerIO, closed: seq<int>, echoes: seq<Echo>)
    requires Keyed(order, m) && i < |order|
    ensures var fd := order[i];
            var rest := PollFrom(order, i + 1, m, ready, io);
            Join(closed, echoes, PollFrom(order, i, m, ready, io))
            == if fd !in ready then Join(closed, echoes, rest)
               else match io(fd).recv
                 case RecvFailed(e) =>
                   if e != ECONNRESET then Scanned(true, closed, echoes) else Join(closed, echoes, rest)
                 case RecvClosed => Join(closed + [fd], echoes, rest)
                 case Received(v) =>
                   if io(fd).send.SendFailed? && io(fd).send.err != ECONNRESET
                   then Scanned(true, closed, echoes + [Echo(fd, m[fd], v)])
                   else Join(closed, echoes + [Echo(fd, m[fd], v)], rest)
  {
    var fd := order[i];
    var rest := PollFrom(order, i + 1, m, ready, io);
    assert closed + [] == closed && echoes + [] == echoes;
    assert closed + ([fd] + rest.closed) == closed + [fd] + rest.closed;
    if fd in m {
      var e := Echo(fd, m[fd], 0);
      forall v | true
        ensures echoes + ([e.(value := v)] + rest.echoes) == echoes + [e.(value := v)] + rest.echoes
      {
      }
    }
  }

  /**
    One turn of the `while(true)` loop of `startServer`, from the `select` result on.
    The ready set is taken as given: it may also hold the socket that `accept`
    returns in the same turn, which the program's `select` cannot report, so
    every property proved here covers at least the turns the program can see.
  */
  function PassSpec(listenFD: int, clients: map<int, Addr>, sel: Select, accept: AcceptResult, io: int -> PeerIO): Pass {
    match sel
    case SelectFailed => Pass(true, clients, [])
    case Selected(ready) =>
      if ready == {} then Pass(false, clients, [])
      else if listenFD in ready && accept.AcceptFailed? then Pass(true, clients, [])
      else
        var m := AfterAccept(listenFD, clients, ready, accept);
        var r := PollFrom(Ascending(m.Keys), 0, m, ready, io);
        if r.fatal then Pass(true, m, r.echoes)
        else Pass(false, m - (set fd | fd in r.closed), r.echoes)
  }

  /** The deferred erase loop: every socket marked closed is removed, and nothing else. */
  method EraseAll(clients0: map<int, Addr>, closedSockets: seq<int>) returns (clients: map<int, Addr>)
    ensures clients == clients0 - (set fd | fd in closedSockets)
  {
    clients := clients0;
    for j := 0 to |closedSockets|
      invariant clients == clients0 - (set fd | fd in closedSockets[..j])
    {
      assert closedSockets[..j + 1] == closedSockets[..j] + [closedSockets[j]];
      clients := clients - {closedSockets[j]};
    }
    assert closedSockets[..|closedSockets|] == closedSockets;
  }

  /**
    The scan over the clients as written: in visiting order, each ready
    client is read once; a closed one is marked for erasure, a reset one is
    passed over, a message is echoed; any other error stops the scan.
  */
  method ScanClients(order: seq<int>, clients: map<int, Addr>, ready: set<int>, io: int -> PeerIO)
    returns (r: Scanned)
    requires Keyed(order, clients)
    ensures r == PollFrom(order, 0, clients, ready, io)
  {
    ghost var spec := PollFrom(order, 0, clients, ready, io);
    var closedSockets: seq<int> := [];
    var echoes: seq<Echo> := [];
    assert spec == Join(closedSockets, echoes, spec);
    for idx := 0 to |order|
      invariant spec == Join(closedSockets, echoes, PollFrom(order, idx, clients, ready, io))
    {
      var clientFD := order[idx];
      var clientAddress := clients[clientFD];
      PollStep(order, idx, clients, ready, io, closedSockets, echoes);
      if clientFD in ready {
        var outcome := io(clientFD);
        match outcome.recv
        case RecvFailed(e) =>
          if e != ECONNRESET {
            return Scanned(true, closedSockets, echoes);
          }
        case RecvClosed =>
          closedSockets := closedSockets + [clientFD];
        case Received(data) =>
          echoes := echoes + [Echo(clientFD, clientAddress, data)];
          if outcome.send.SendFailed? && outcome.send.err != ECONNRESET {
            return Scanned(true, closedSockets, echoes);
          }
      }
    }
    assert closedSockets + [] == closedSockets && echoes + [] == echoes;
    return Scanned(false, closedSockets, echoes);
  }

  /** One turn as written: accept, scan the clients collecting closed sockets, then erase them. */
  method ServePass(listenFD: int, clients0: map<int, Addr>, sel: Select, accept: AcceptResult, io: int -> PeerIO)
    returns (p: Pass)
    ensures p == PassSpec(listenFD, clients0, sel, accept, io)
  {
    var clients := clients0;
    if sel.SelectFailed? {
      return Pass(true, clients, []);
    }
    var ready := sel.ready;
    if ready == {} {
      return Pass(false, clients, []);
    }
    if listenFD in ready {
      if accept.AcceptFailed? {
        return Pass(true, clients, []);
      }
      clients := Emplace(clients, accept.fd, accept.peer);
    }
    var order := Ascending(clients.Keys);
    var scanned := ScanClients(order, clients, ready, io);
    if scanned.fatal {
      return Pass(true, clients, scanned.echoes);
    }
    clients := EraseAll(clients, scanned.closed);
    return Pass(false, clients, scanned.echoes);
  }

  // Properties of one turn

  /** Visiting order is strictly ascending. */
  predicate Increasing(order: seq<int>) {
    forall a, b :: 0 <= a < b < |order| ==> order[a] < order[b]
  }

  /**
    What the scan from position `i` does: it fails exactly when some ready
    client from there on has a fatal outcome; every echo goes back to a
    ready client, to the address on record, carrying the value read from
    it, in ascending socket order; every socket marked closed is a ready
    client whose read returned zero bytes; a scan that fails stops at the
    first fatal client, so nothing past it is read or answered; and a scan
    that does not fail echoes every ready client that sent a message and
    marks every ready client that closed.
  */
  lemma {:induction false} PollFacts(order: seq<int>, i: nat, m: map<int, Addr>, ready: set<int>, io: int -> PeerIO)
    requires Keyed(order, m) && Increasing(order)
    ensures var r := PollFrom(order, i, m, ready, io);
            r.fatal <==> exists k :: i <= k < |order| && order[k] in ready && FatalIO(io(order[k]))
    ensures var r := PollFrom(order, i, m, ready, io);
            forall e :: e in r.echoes ==>
              && e.fd in ready && e.fd in m && e.peer == m[e.fd] && io(e.fd).recv == Received(e.value)
              && order[i] <= e.fd
    ensures var r := PollFrom(order, i, m, ready, io);
            forall a, b :: 0 <= a < b < |r.echoes| ==> r.echoes[a].fd < r.echoes[b].fd
    ensures var r := PollFrom(order, i, m, ready, io);
            forall fd :: fd in r.closed ==> fd in ready && fd in m && io(fd).recv == RecvClosed
    ensures var r := PollFrom(order, i, m, ready, io);
            forall e, k :: e in r.echoes && i <= k < |order| && order[k] in ready && FatalIO(io(order[k])) ==>
              e.fd <= order[k]
    ensures var r := PollFrom(order, i, m, ready, io);
            !r.fatal ==> forall k :: i <= k < |order| && order[k] in ready && io(order[k]).recv.Received? ==>
                           Echo(order[k], m[order[k]], io(order[k]).recv.value) in r.echoes
    ensures var r := PollFrom(order, i, m, ready, io);
            !r.fatal ==> forall k :: i <= k < |order| && order[k] in ready && io(order[k]).recv.RecvClosed? ==>
                           order[k] in r.closed
    decreases |order| - i
  {
    PollStopsAtFatal(order, i, m, ready, io);
    if i < |order| {
      PollFacts(order, i + 1, m, ready, io);
      var fd := order[i];
      var rest := PollFrom(order, i + 1, m, ready, io);
      var r := PollFrom(order, i, m, ready, io);
      if i + 1 < |order| {
        assert forall e :: e in rest.echoes ==> fd < e.fd;
      }
      if r.fatal && !rest.fatal {
        assert fd in ready && FatalIO(io(fd));
      }
    }
  }

  /** The scan stops at the first fatal client: no echo goes to a socket past it. */
  lemma {:induction false} PollStopsAtFatal(order: seq<int>, i: nat, m: map<int, Addr>, ready: set<int>, io: int -> PeerIO)
    requires Keyed(order, m) && Increasing(order)
    ensures var r := PollFrom(order, i, m, ready, io);
            forall e, k :: e in r.echoes && i <= k < |order| && order[k] in ready && FatalIO(io(order[k])) ==>
              e.fd <= order[k]
    ensures var r := PollFrom(order, i, m, ready, io);
            forall e :: e in r.echoes ==> i < |order| && order[i] <= e.fd
    decreases |order| - i
  {
    if i < |order| {
      PollStopsAtFatal(order, i + 1, m, ready, io);
    }
  }

  /** An accepted connection adds exactly one client, keyed by the new socket; no entry is overwritten. */
  lemma AcceptAddsOne(listenFD: int, clients: map<int, Addr>, ready: set<int>, fd: int, peer: Addr)
    requires listenFD in ready && fd !in clients
    ensures AfterAccept(listenFD, clients, ready, Accepted(fd, peer)) == clients[fd := peer]
    ensures |AfterAccept(listenFD, clients, ready, Accepted(fd, peer)).Keys| == |clients.Keys| + 1
  {
    assert clients[fd := peer].Keys == clients.Keys + {fd};
  }

  /**
    A turn in which `select` failed, or the listening socket was ready but
    `accept` failed, returns 1 without echoing; a turn in which `select`
    returned 0 changes nothing.
  */
  lemma PassEarlyExits(listenFD: int, clients: map<int, Addr>, ready: set<int>, accept: AcceptResult, io: int -> PeerIO)
    ensures PassSpec(listenFD, clients, SelectFailed, accept, io) == Pass(true, clients, [])
    ensures PassSpec(listenFD, clients, Selected({}), accept, io) == Pass(false, clients, [])
    ensures ready != {} && listenFD in ready && accept.AcceptFailed? ==>
              PassSpec(listenFD, clients, Selected(ready), accept, io) == Pass(true, clients, [])
  {
  }

  /**
    A turn past `select` and `accept`: it returns 1 exactly when some ready
    client has a fatal outcome; otherwise the clients that remain are those
    of the map after the accept step, minus the ready clients that closed,
    each at its recorded address. Every echo answers a ready client with the
    value it sent, in ascending socket order; a turn that fails answers no
    client past the first fatal one, and a turn that does not fail answers
    every ready client that sent a message.
  */
  lemma PassOutcome(listenFD: int, clients: map<int, Addr>, ready: set<int>, accept: AcceptResult, io: int -> PeerIO)
    requires ready != {} && !(listenFD in ready && accept.AcceptFailed?)
    ensures var p := PassSpec(listenFD, clients, Selected(ready), accept, io);
            var m := AfterAccept(listenFD, clients, ready, accept);
            p.fatal <==> exists fd :: fd in m && fd in ready && FatalIO(io(fd))
    ensures var p := PassSpec(listenFD, clients, Selected(ready), accept, io);
            var m := AfterAccept(listenFD, clients, ready, accept);
            !p.fatal ==> forall fd :: fd in p.clients <==> fd in m && !(fd in ready && io(fd).recv.RecvClosed?)
    ensures var p := PassSpec(listenFD, clients, Selected(ready), accept, io);
            var m := AfterAccept(listenFD, clients, ready, accept);
            forall fd :: fd in p.clients ==> fd in m && p.clients[fd] == m[fd]
    ensures var p := PassSpec(listenFD, clients, Selected(ready), accept, io);
            var m := AfterAccept(listenFD, clients, ready, accept);
            forall e :: e in p.echoes ==> e.fd in ready && e.fd in m && e.peer == m[e.fd] && io(e.fd).recv == Received(e.value)
    ensures var p := PassSpec(listenFD, clients, Selected(ready), accept, io);
            var m := AfterAccept(listenFD, clients, ready, accept);
            !p.fatal ==> forall fd :: fd in m && fd in ready && io(fd).recv.Received? ==> Echo(fd, m[fd], io(fd).recv.value) in p.echoes
    ensures var p := PassSpec(listenFD, clients, Selected(ready), accept, io);
            forall a, b :: 0 <= a < b < |p.echoes| ==> p.echoes[a].fd < p.echoes[b].fd
    ensures var p := PassSpec(listenFD, clients, Selected(ready), accept, io);
            var m := AfterAccept(listenFD, clients, ready, accept);
            forall e, fd :: e in p.echoes && fd in m && fd in ready && FatalIO(io(fd)) ==> e.fd <= fd
  {
    var m := AfterAccept(listenFD, clients, ready, accept);
    var order := Ascending(m.Keys);
    PollFacts(order, 0, m, ready, io);
    var r := PollFrom(order, 0, m, ready, io);
    forall e, fd | e in r.echoes && fd in m && fd in ready && FatalIO(io(fd))
      ensures e.fd <= fd
    {
      assert fd in order;
      var k :| 0 <= k < |order| && order[k] == fd;
    }
    if r.fatal {
      var k :| 0 <= k < |order| && order[k] in ready && FatalIO(io(order[k]));
      assert order[k] in m;
    } else {
      forall fd | fd in m && fd in ready
        ensures !FatalIO(io(fd))
        ensures io(fd).recv.Received? ==> Echo(fd, m[fd], io(fd).recv.value) in r.echoes
        ensures io(fd).recv.RecvClosed? ==> fd in r.closed
      {
        assert fd in order;
        var k :| 0 <= k < |order| && order[k] == fd;
      }
    }
  }

  /** A client whose socket was not ready is neither read nor changed, and gets no echo. */
  lemma UnreadyUntouched(listenFD: int, clients: map<int, Addr>, ready: set<int>, accept: AcceptResult, io: int -> PeerIO, fd: int)
    requires fd in clients && fd !in ready
    ensures var p := PassSpec(listenFD, clients, Selected(ready), accept, io);
            !p.fatal ==> fd in p.clients && p.clients[fd] == clients[fd]
    ensures var p := PassSpec(listenFD, clients, Selected(ready), accept, io);
            forall e :: e in p.echoes ==> e.fd != fd
  {
    if ready != {} && !(listenFD in ready && accept.AcceptFailed?) {
      PassOutcome(listenFD, clients, ready, accept, io);
    }
  }

  // The event loop over a finite sequence of turns

  /** What the system calls of one turn returned. */
  datatype Round = Round(sel: Select, accept: AcceptResult, io: int -> PeerIO)

  /**
    Where the server stands: the code `startServer` returned (`None` while
    it is still serving when the turns run out), its client map, and every
    echo made so far.
  */
  datatype Served = Served(code: Option<int>, clients: map<int, Addr>, echoes: seq<Echo>)

  /** The event loop from turn `i`, with the client map and echoes so far. */
  function Rounds(listenFD: int, rounds: seq<Round>, i: nat, clients: map<int, Addr>, echoes: seq<Echo>): Served
    decreases |rounds| - i
  {
    if i >= |rounds| then Served(None, clients, echoes)
    else
      var p := PassSpec(listenFD, clients, rounds[i].sel, rounds[i].accept, rounds[i].io);
      if p.fatal then Served(Some(1), p.clients, echoes + p.echoes)
      else Rounds(listenFD, rounds, i + 1, p.clients, echoes + p.echoes)
  }

  /** `startServer`: socket, bind and listen, then the event loop from an empty client map. */
  function Serve(listenFD: int, bindOk: bool, listenOk: bool, rounds: seq<Round>): Served {
    if listenFD < 0 || !bindOk || !listenOk then Served(Some(1), map[], [])
    else Rounds(listenFD, rounds, 0, map[], [])
  }

  /** `startServer` as written, the endless loop run over the turns given. */
  method StartServer(listenSocket: int, bindOk: bool, listenOk: bool, rounds: seq<Round>) returns (s: Served)
    ensures s == Serve(listenSocket, bindOk, listenOk, rounds)
  {
    if listenSocket < 0 {
      return Served(Some(1), map[], []);
    }
    if !bindOk {
      return Served(Some(1), map[], []);
    }
    if !listenOk {
      return Served(Some(1), map[], []);
    }
    var clients: map<int, Addr> := map[];
    var echoes: seq<Echo> := [];
    var i := 0;
    while i < |rounds|
      invariant i <= |rounds|
      invariant Serve(listenSocket, bindOk, listenOk, rounds) == Rounds(listenSocket, rounds, i, clients, echoes)
      decreases |rounds| - i
    {
      var p := ServePass(listenSocket, clients, rounds[i].sel, rounds[i].accept, rounds[i].io);
      echoes := echoes + p.echoes;
      if p.fatal {
        return Served(Some(1), p.clients, echoes);
      }
      clients := p.clients;
      i := i + 1;
    }
    return Served(None, clients, echoes);
  }

  /** `accept` delivered socket `fd` with address `peer` in one of the first `n` turns. */
  ghost predicate AcceptedBy(rounds: seq<Round>, n: int, fd: int, peer: Addr) {
    exists j :: 0 <= j < n && j < |rounds| && rounds[j].accept == Accepted(fd, peer)
  }

  /** Every client of `clients` was delivered by `accept`, with its address, in one of the first `n` turns. */
  ghost predicate AllAccepted(rounds: seq<Round>, n: int, clients: map<int, Addr>) {
    forall fd :: fd in clients ==> AcceptedBy(rounds, n, fd, clients[fd])
  }

  lemma {:induction false} RoundsKeepAccepted(listenFD: int, rounds: seq<Round>, i: nat, clients: map<int, Addr>, echoes: seq<Echo>)
    requires AllAccepted(rounds, i, clients)
    ensures AllAccepted(rounds, |rounds|, Rounds(listenFD, rounds, i, clients, echoes).clients)
    decreases |rounds| - i
  {
    if i < |rounds| {
      var round := rounds[i];
      var p := PassSpec(listenFD, clients, round.sel, round.accept, round.io);
      forall fd | fd in p.clients
        ensures AcceptedBy(rounds, i + 1, fd, p.clients[fd])
      {
        if round.sel.Selected? && round.sel.ready != {} && !(listenFD in round.sel.ready && round.accept.AcceptFailed?) {
          PassOutcome(listenFD, clients, round.sel.ready, round.accept, round.io);
          if fd !in clients {
            assert rounds[i].accept == Accepted(fd, p.clients[fd]);
          }
        }
      }
      if !p.fatal {
        assert Rounds(listenFD, rounds, i, clients, echoes) == Rounds(listenFD, rounds, i + 1, p.clients, echoes + p.echoes);
        RoundsKeepAccepted(listenFD, rounds, i + 1, p.clients, echoes + p.echoes);
      } else {
        forall fd | fd in p.clients
          ensures AcceptedBy(rounds, |rounds|, fd, p.clients[fd])
        {
          var j :| 0 <= j < i + 1 && j < |rounds| && rounds[j].accept == Accepted(fd, p.clients[fd]);
        }
      }
    }
  }

  /**
    The server only ever returns 1 (its `return 0` is unreachable), and
    every client it holds came from an `accept`, with the address `accept`
    reported for it.
  */
  lemma ServeFacts(listenFD: int, bindOk: bool, listenOk: bool, rounds: seq<Round>)
    ensures Serve(listenFD, bindOk, listenOk, rounds).code.Some? ==> Serve(listenFD, bindOk, listenOk, rounds).code.value == 1
    ensures AllAccepted(rounds, |rounds|, Serve(listenFD, bindOk, listenOk, rounds).clients)
  {
    if 0 <= listenFD && bindOk && listenOk {
      RoundsExitOne(listenFD, rounds, 0, map[], []);
      RoundsKeepAccepted(listenFD, rounds, 0, map[], []);
    }
  }

  lemma {:induction false} RoundsExitOne(listenFD: int, rounds: seq<Round>, i: nat, clients: map<int, Addr>, echoes: seq<Echo>)
    ensures Rounds(listenFD, rounds, i, clients, echoes).code.Some? ==> Rounds(listenFD, rounds, i, clients, echoes).code.value == 1
    decreases |rounds| - i
  {
    if i < |rounds| {
      var p := PassSpec(listenFD, clients, rounds[i].sel, rounds[i].accept, rounds[i].io);
      if !p.fatal {
        RoundsExitOne(listenFD, rounds, i + 1, p.clients, echoes + p.echoes);
      }
    }
  }

  // main

  /** `main`: a usage error without exactly one argument, then the port check, then `startServer`. */
  function ServerMain(argv: seq<string>, listenFD: int, bindOk: bool, listenOk: bool, rounds: seq<Round>): Served {
    if |argv| != 2 then Served(Some(1), map[], [])
    else match String2UShort(argv[1])
      case None => Served(Some(2), map[], [])
      case Some(_) => Serve(listenFD, bindOk, listenOk, rounds)
  }

  /**
    The exit codes of `main`: 1 for a wrong argument count, 2 exactly for
    an argument that is not a port number, and otherwise the 1 of
    `startServer` if it returns at all.
  */
  lemma MainExitCodes(argv: seq<string>, listenFD: int, bindOk: bool, listenOk: bool, rounds: seq<Round>)
    ensures |argv| != 2 ==> ServerMain(argv, listenFD, bindOk, listenOk, rounds).code == Some(1)
    ensures ServerMain(argv, listenFD, bindOk, listenOk, rounds).code == Some(2)
            <==> |argv| == 2 && String2UShort(argv[1]).None?
    ensures var c := ServerMain(argv, listenFD, bindOk, listenOk, rounds).code;
            c.Some? ==> c.value == 1 || c.value == 2
    ensures |argv| == 2 && String2UShort(argv[1]).Some? ==>
              ServerMain(argv, listenFD, bindOk, listenOk, rounds) == Serve(listenFD, bindOk, listenOk, rounds)
    ensures |argv| != 2 || String2UShort(argv[1]).None? ==>
              ServerMain(argv, listenFD, bindOk, listenOk, rounds).clients == map[]
              && ServerMain(argv, listenFD, bindOk, listenOk, rounds).echoes == []
  {
    ServeFacts(listenFD, bindOk, listenOk, rounds);
  }
}
