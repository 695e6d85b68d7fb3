/** The server object: its registry of sockets, the ready array of the
    current pass, and the record of what it has done so far (hook calls and
    writes), updated in place by the loop of `start`, by
    `disconnect_single_socket` and by the write helpers.

    The listening socket, the host name and SHA-1 are fixed when the
    server is made; what the sockets report is the input of each pass. */
module Server {
  import opened Wrappers
  import opened Octets
  import Framing
  import Handshake
  import opened Registry

  /** The frames `write_to_sockets` writes: the same frame to each peer, in
      the order of the list. */
  function Broadcast(peers: seq<Handle>, frame: Bytes): (ev: seq<Event>)
    ensures |ev| == |peers|
    ensures forall i :: 0 <= i < |peers| ==> ev[i] == FrameSent(peers[i], frame)
  {
    seq(|peers|, i requires 0 <= i < |peers| => FrameSent(peers[i], frame))
  }

  /** Concatenation of event records is associative. */
  lemma ConcatAssoc(a: seq<Event>, b: seq<Event>, c: seq<Event>)
    ensures a + b + c == a + (b + c)
  {
  }

  class Socketeer {
    /** The name of the server, used for its log file. */
    const handle: string
    /** The port the listening socket is bound to. */
    const port: int
    /** The configured log level (0 none, 1 engine, 2 application, 3 all). */
    const log: int
    /** The listening socket made and bound by the constructor. */
    const listener: Handle
    /** What `get_host_name` returns. */
    const hostName: string
    /** The SHA-1 digest of a string. */
    const sha1: string -> Handshake.Digest

    /** `$this->sockets`. */
    var sockets: map<nat, Handle>
    /** The key PHP gives the next socket appended to `$this->sockets`. */
    var nextKey: nat
    /** `$this->newSockets`: the ready array of the current pass. */
    var newSockets: map<nat, Handle>
    /** Everything the server has done that is seen outside it, in order. */
    var events: seq<Event>

    /** The registry invariant. */
    ghost predicate Valid()
      reads this
    {
      WellFormed(listener, sockets, nextKey)
    }

    /** The constructor's settings; both socket arrays start empty. */
    constructor (handle: string, port: int, log: int, listener: Handle,
                 hostName: string, sha1: string -> Handshake.Digest)
      ensures this.handle == handle && this.port == port && this.log == log
      ensures this.listener == listener && this.hostName == hostName && this.sha1 == sha1
      ensures sockets == map[] && nextKey == 0 && newSockets == map[] && events == []
    {
      this.handle := handle;
      this.port := port;
      this.log := log;
      this.listener := listener;
      this.hostName := hostName;
      this.sha1 := sha1;
      sockets := map[];
      nextKey := 0;
      newSockets := map[];
      events := [];
    }

    /** `disconnect_single_socket`: unsets the key `array_search` finds,
        which is key 0 when the socket is not registered, and reports
        success whatever happened. */
    method DisconnectSingleSocket(socket: Handle) returns (ok: bool)
      modifies this
      ensures ok
      ensures sockets == Disconnect(old(sockets), socket, nextKey)
      ensures socket !in old(sockets).Values ==> sockets == old(sockets) - {0}
      ensures nextKey == old(nextKey) && newSockets == old(newSockets) && events == old(events)
      ensures old(Valid()) ==> Valid()
    {
      if Valid() {
        DisconnectKeepsWellFormed(listener, sockets, nextKey, socket);
      }
      var index := ArraySearch(sockets, socket, 0, nextKey);
      sockets := sockets - {index.GetOr(0)};
      if socket !in old(sockets).Values {
        DisconnectAbsent(old(sockets), socket, nextKey);
      }
      ok := true;
    }

    /** One pass of the loop of `start`: `cycle_check`, the selection and
        the acceptance of a new peer with its handshake, then the read pass
        over the ready array. */
    method Tick(io: TickInput)
      requires Valid()
      requires FreshAccept(listener, sockets, io)
      modifies this
      ensures var t := TickSpec(listener, old(sockets), old(nextKey), io, hostName, sha1);
        && sockets == t.sockets && nextKey == t.nextKey && newSockets == t.newSockets
        && events == old(events) + t.events
      ensures Valid()
    {
      ghost var s0, n0, e0 := sockets, nextKey, events;
      ghost var a := AcceptStep(listener, sockets, nextKey, io, hostName, sha1);
      events := events + [CycleCheck];
      AcceptReady(io);
      ReadReady(io);
      ConcatAssoc(e0, [CycleCheck] + a.events, ReadPass(a.sockets, a.newSockets, 0, a.nextKey, io).1);
      TickWellFormed(listener, s0, n0, io, hostName, sha1);
    }

    /** `socket_select` over the registry, then, when the listening socket
        is ready, `socket_accept`, the handshake, the removal of the
        listening socket from the ready array and `connect_socket`. */
    method AcceptReady(io: TickInput)
      modifies this
      ensures var a := AcceptStep(listener, old(sockets), old(nextKey), io, hostName, sha1);
        && sockets == a.sockets && nextKey == a.nextKey && newSockets == a.newSockets
        && events == old(events) + a.events
    {
      newSockets := Selected(sockets, io.ready);
      if listener in newSockets.Values {
        var newSocket := io.accepted;
        var key := nextKey;
        sockets := sockets[key := newSocket];
        nextKey := key + 1;
        var response := Handshake.DoHandshake(io.request, hostName, sha1);
        events := events + [HandshakeSent(newSocket, response)];
        var index := ArraySearch(newSockets, listener, 0, key);
        newSockets := newSockets - {index.GetOr(0)};
        events := events + [Connected(newSocket)];
      }
    }

    /** The `foreach` over the ready array in key order: the first socket
        that yields data goes to `socket_receive` and ends the pass
        (`break 2`); a socket that yields nothing and fails its probe read
        is disconnected and `on_socket_disconnect` is called. */
    method ReadReady(io: TickInput)
      modifies this
      ensures var pass := ReadPass(old(sockets), newSockets, 0, nextKey, io);
        sockets == pass.0 && events == old(events) + pass.1
      ensures nextKey == old(nextKey) && newSockets == old(newSockets)
    {
      ghost var pass := ReadPass(sockets, newSockets, 0, nextKey, io);
      ghost var e0 := events;
      var bound := nextKey;
      var k := 0;
      while k < bound
        invariant k <= bound && nextKey == bound && newSockets == old(newSockets)
        invariant ReadPass(sockets, newSockets, k, bound, io).0 == pass.0
        invariant events + ReadPass(sockets, newSockets, k, bound, io).1 == e0 + pass.1
        decreases bound - k
      {
        ghost var before, current := events, sockets;
        if k in newSockets {
          var socket := newSockets[k];
          var data := Read(io, socket);
          if |data| >= 1 {
            events := events + [Received(data, socket)];
            break;
          }
          if socket in io.closed {
            ghost var rest := ReadPass(Disconnect(current, socket, bound), newSockets, k + 1, bound, io);
            assert ReadPass(current, newSockets, k, bound, io) == (rest.0, [Disconnected] + rest.1);
            var _ := DisconnectSingleSocket(socket);
            events := events + [Disconnected];
            ConcatAssoc(before, [Disconnected], rest.1);
          }
        }
        k := k + 1;
      }
    }

    /** `start`: put the listening socket alone in the registry, make one
        pass per input while `is_alive` holds, then close the listening
        socket and call `cleanup`. */
    method Run(inputs: seq<TickInput>)
      requires AcceptsFresh(listener, Initial(listener), inputs, hostName, sha1)
      modifies this
      ensures var r := RunSpec(listener, Initial(listener), inputs, hostName, sha1);
        && sockets == r.sockets && nextKey == r.nextKey
        && events == old(events) + r.events + [ListenerClosed, CleanedUp]
        && (|inputs| > 0 ==> newSockets == r.newSockets)
      ensures Valid()
    {
      ghost var e0 := events;
      ghost var cur := Initial(listener);
      sockets := map[0 := listener];
      nextKey := 1;
      var i := 0;
      while i < |inputs|
        invariant i <= |inputs|
        invariant sockets == cur.sockets && nextKey == cur.nextKey && events == e0 + cur.events
        invariant i > 0 ==> newSockets == cur.newSockets
        invariant WellFormed(listener, cur.sockets, cur.nextKey)
        invariant AcceptsFresh(listener, cur, inputs[i..], hostName, sha1)
        invariant RunSpec(listener, cur, inputs[i..], hostName, sha1) == RunSpec(listener, Initial(listener), inputs, hostName, sha1)
      {
        RunSpecStep(listener, cur, inputs, i, hostName, sha1);
        ghost var t := TickSpec(listener, cur.sockets, cur.nextKey, inputs[i], hostName, sha1);
        Tick(inputs[i]);
        ConcatAssoc(e0, cur.events, t.events);
        cur := Step(listener, cur, inputs[i], hostName, sha1);
        i := i + 1;
      }
      assert inputs[i..] == [];
      events := events + [ListenerClosed, CleanedUp];
    }

    /** `write_to_single_socket`: seal the text and write the frame. A text
        of 65536 octets or more makes `seal` fail, and the failure leaves the
        method before anything is written. */
    method WriteToSingleSocket(socket: Handle, text: Bytes) returns (r: Result<bool, Framing.SealError>)
      modifies this
      ensures r.Success? <==> |text| <= Framing.MaxShortPayload
      ensures r.Success? ==> r.value && events == old(events) + [FrameSent(socket, Framing.Seal(text).value)]
      ensures r.Failure? ==> events == old(events)
      ensures sockets == old(sockets) && nextKey == old(nextKey) && newSockets == old(newSockets)
    {
      var message := Framing.Seal(text);
      if message.Failure? {
        return Failure(message.error);
      }
      events := events + [FrameSent(socket, message.value)];
      return Success(true);
    }

    /** `write_to_sockets`: the same text to each peer of the list in turn.
        Every peer gets the frame when the text can be sealed; otherwise the
        first write fails and nothing is written. An empty list succeeds
        whatever the text. */
    method WriteToSockets(peers: seq<Handle>, text: Bytes) returns (r: Result<bool, Framing.SealError>)
      modifies this
      ensures r.Failure? <==> |peers| > 0 && |text| > Framing.MaxShortPayload
      ensures r.Success? ==> r.value
      ensures |text| <= Framing.MaxShortPayload ==> events == old(events) + Broadcast(peers, Framing.Seal(text).value)
      ensures |text| > Framing.MaxShortPayload ==> events == old(events)
      ensures sockets == old(sockets) && nextKey == old(nextKey) && newSockets == old(newSockets)
    {
      var i := 0;
      while i < |peers|
        invariant i <= |peers|
        invariant i > 0 ==> |text| <= Framing.MaxShortPayload
        invariant |text| <= Framing.MaxShortPayload ==> events == old(events) + Broadcast(peers[..i], Framing.Seal(text).value)
        invariant |text| > Framing.MaxShortPayload ==> events == old(events)
        invariant sockets == old(sockets) && nextKey == old(nextKey) && newSockets == old(newSockets)
      {
        var written := WriteToSingleSocket(peers[i], text);
        if written.Failure? {
          return Failure(written.error);
        }
        assert peers[..i + 1] == peers[..i] + [peers[i]];
        i := i + 1;
      }
      assert peers[..i] == peers;
      return Success(true);
    }
  }
}
