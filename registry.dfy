/** The connection bookkeeping of the server loop, as functions of the
    state and of what the sockets report during one pass of the loop.

    The state is PHP's `$this->sockets`: an integer-keyed array whose
    entries are only ever appended (at the next free key) or unset, so its
    iteration order is ascending key order. The listening socket is put at
    key 0 when the loop starts. Everything the operating system decides —
    which sockets `socket_select` reports ready, the socket `socket_accept`
    returns, the request bytes of the new peer, what `socket_recv` reads and
    whether the probe read fails — is an input of the pass. */
module Registry {
  import opened Wrappers
  import opened Octets
  import Handshake

  /** A socket resource, compared by identity. */
  datatype Handle = Handle(id: nat)

  /** What the loop does that is visible outside the registry: the calls of
      the application's hooks and the writes to sockets. */
  datatype Event =
    | CycleCheck                              // the `cycle_check` hook
    | HandshakeSent(peer: Handle, response: string) // the handshake reply written to a new peer
    | Connected(peer: Handle)                 // the `connect_socket` hook
    | Received(data: Bytes, peer: Handle)     // the `socket_receive` hook, with the bytes as read
    | Disconnected                            // the `on_socket_disconnect` hook
    | FrameSent(peer: Handle, frame: Bytes)   // a frame written by `write_to_single_socket`
    | ListenerClosed                          // `socket_close` on the listening socket
    | CleanedUp                               // the `cleanup` hook

  /** What the sockets report during one pass of the loop:
      - `ready`: the sockets `socket_select` leaves in the array;
      - `accepted`: the socket `socket_accept` returns;
      - `request`: the bytes `socket_read` takes from the new socket;
      - `received`: what `socket_recv` reads from a socket (absent: nothing);
      - `closed`: the sockets whose probe read returns false. */
  datatype TickInput = TickInput(
    ready: set<Handle>,
    accepted: Handle,
    request: string,
    received: map<Handle, Bytes>,
    closed: set<Handle>)

  /** The bytes `socket_recv` reads from `h` in this pass. */
  function Read(io: TickInput, h: Handle): Bytes
  {
    if h in io.received then io.received[h] else []
  }

  /** No socket is held under two keys. */
  predicate Distinct(m: map<nat, Handle>)
  {
    forall j, k :: j in m && k in m && m[j] == m[k] ==> j == k
  }

  /** The registry invariant: every key is below the next free key, no
      socket is registered twice, and the listening socket, if present,
      sits at key 0. */
  predicate WellFormed(listener: Handle, sockets: map<nat, Handle>, nextKey: nat)
  {
    && nextKey >= 1
    && (forall k :: k in sockets ==> k < nextKey)
    && Distinct(sockets)
    && (forall k :: k in sockets && sockets[k] == listener ==> k == 0)
  }

  // ---------------------------------------------------------------------
  // array_search and disconnect_single_socket
  // ---------------------------------------------------------------------

  /** `array_search` over the keys `lo` up to `bound` in ascending (that is,
      iteration) order: the first key holding `h`, or none. */
  function ArraySearch(m: map<nat, Handle>, h: Handle, lo: nat, bound: nat): (r: Option<nat>)
    ensures r.Some? ==> lo <= r.value < bound && r.value in m && m[r.value] == h
    ensures r.Some? ==> forall j :: lo <= j < r.value && j in m ==> m[j] != h
    ensures r.None? ==> forall j :: lo <= j < bound && j in m ==> m[j] != h
    decreases bound - lo
  {
    if lo >= bound then None
    else if lo in m && m[lo] == h then Some(lo)
    else ArraySearch(m, h, lo + 1, bound)
  }

  /** `disconnect_single_socket`: unset the key `array_search` returns; when
      the socket is not registered that is `false`, which PHP takes as key
      0. */
  function Disconnect(sockets: map<nat, Handle>, h: Handle, bound: nat): map<nat, Handle>
  {
    sockets - {ArraySearch(sockets, h, 0, bound).GetOr(0)}
  }

  /** Only the first entry holding the socket goes; every other entry stays
      as it was. */
  lemma DisconnectFirst(sockets: map<nat, Handle>, h: Handle, bound: nat, k: nat)
    requires k in sockets && sockets[k] == h && k < bound
    requires forall j :: j < k && j in sockets ==> sockets[j] != h
    ensures Disconnect(sockets, h, bound) == sockets - {k}
  {
    var r := ArraySearch(sockets, h, 0, bound);
    assert r.Some?;
    assert r.value == k;
  }

  /** In a well-formed registry the socket is gone afterwards and the
      registry has one entry fewer. */
  lemma DisconnectPresent(listener: Handle, sockets: map<nat, Handle>, nextKey: nat, k: nat)
    requires WellFormed(listener, sockets, nextKey)
    requires k in sockets
    ensures Disconnect(sockets, sockets[k], nextKey) == sockets - {k}
    ensures sockets[k] !in Disconnect(sockets, sockets[k], nextKey).Values
    ensures |Disconnect(sockets, sockets[k], nextKey)| == |sockets| - 1
    ensures WellFormed(listener, Disconnect(sockets, sockets[k], nextKey), nextKey)
  {
    DisconnectFirst(sockets, sockets[k], nextKey, k);
  }

  /** Whatever the socket, unsetting the key `array_search` gives keeps a
      well-formed registry well-formed: it only removes an entry. */
  lemma DisconnectKeepsWellFormed(listener: Handle, sockets: map<nat, Handle>, nextKey: nat, h: Handle)
    requires WellFormed(listener, sockets, nextKey)
    ensures WellFormed(listener, Disconnect(sockets, h, nextKey), nextKey)
  {
  }

  /** A socket that is not registered costs the entry at key 0, which is
      where the listening socket was put. */
  lemma DisconnectAbsent(sockets: map<nat, Handle>, h: Handle, bound: nat)
    requires h !in sockets.Values
    ensures Disconnect(sockets, h, bound) == sockets - {0}
  {
    forall j | j in sockets
      ensures sockets[j] != h
    {
      assert sockets[j] in sockets.Values;
    }
  }

  // ---------------------------------------------------------------------
  // One pass of the loop
  // ---------------------------------------------------------------------

  /** The registry, the ready array and the events of a pass so far. */
  datatype TickState = TickState(
    sockets: map<nat, Handle>,
    nextKey: nat,
    newSockets: map<nat, Handle>,
    events: seq<Event>)

  /** `socket_select` on a copy of the registry: the ready entries, under
      their keys. */
  function Selected(sockets: map<nat, Handle>, ready: set<Handle>): (ns: map<nat, Handle>)
    ensures forall k :: k in ns <==> k in sockets && sockets[k] in ready
    ensures forall k :: k in ns ==> ns[k] == sockets[k]
  {
    map k | k in sockets && sockets[k] in ready :: sockets[k]
  }

  /** The acceptance step: when the listening socket is ready, the accepted
      socket is appended, the handshake reply is written to it, its key in
      the ready array is unset, and the `connect_socket` hook runs. */
  function AcceptStep(listener: Handle, sockets: map<nat, Handle>, nextKey: nat, io: TickInput,
                      hostName: string, sha1: string -> Handshake.Digest): TickState
  {
    var ns := Selected(sockets, io.ready);
    if listener in ns.Values then
      var response := Handshake.HandshakeResponse(io.request, hostName, sha1);
      TickState(sockets[nextKey := io.accepted], nextKey + 1,
                ns - {ArraySearch(ns, listener, 0, nextKey).GetOr(0)},
                [HandshakeSent(io.accepted, response), Connected(io.accepted)])
    else
      TickState(sockets, nextKey, ns, [])
  }

  /** The read pass over the ready array from key `k` on: the first socket
      that yields at least one byte is handed to `socket_receive` and ends
      the pass (`break 2`); a socket that yields nothing and whose probe read
      fails is disconnected. */
  function ReadPass(sockets: map<nat, Handle>, ns: map<nat, Handle>, k: nat, bound: nat, io: TickInput)
    : (map<nat, Handle>, seq<Event>)
    decreases bound - k
  {
    if k >= bound then (sockets, [])
    else if k !in ns then ReadPass(sockets, ns, k + 1, bound, io)
    else
      var h := ns[k];
      var data := Read(io, h);
      if |data| >= 1 then (sockets, [Received(data, h)])
      else if h in io.closed then
        var rest := ReadPass(Disconnect(sockets, h, bound), ns, k + 1, bound, io);
        (rest.0, [Disconnected] + rest.1)
      else ReadPass(sockets, ns, k + 1, bound, io)
  }

  /** One pass of the `while` loop of `start`. */
  function TickSpec(listener: Handle, sockets: map<nat, Handle>, nextKey: nat, io: TickInput,
                    hostName: string, sha1: string -> Handshake.Digest): TickState
  {
    var a := AcceptStep(listener, sockets, nextKey, io, hostName, sha1);
    var pass := ReadPass(a.sockets, a.newSockets, 0, a.nextKey, io);
    TickState(pass.0, a.nextKey, a.newSockets, [CycleCheck] + a.events + pass.1)
  }

  // ---------------------------------------------------------------------
  // A reference description of the read pass
  // ---------------------------------------------------------------------

  /** The first key from `k` on whose socket yields data. */
  function FirstReader(ns: map<nat, Handle>, io: TickInput, k: nat, bound: nat): (r: Option<nat>)
    ensures r.Some? ==> k <= r.value < bound && r.value in ns && |Read(io, ns[r.value])| >= 1
    ensures r.Some? ==> forall j :: k <= j < r.value && j in ns ==> |Read(io, ns[j])| == 0
    ensures r.None? ==> forall j :: k <= j < bound && j in ns ==> |Read(io, ns[j])| == 0
    decreases bound - k
  {
    if k >= bound then None
    else if k in ns && |Read(io, ns[k])| >= 1 then Some(k)
    else FirstReader(ns, io, k + 1, bound)
  }

  /** Where the pass stops: at the first socket with data, or at the end. */
  function Stop(ns: map<nat, Handle>, io: TickInput, k: nat, bound: nat): nat
  {
    match FirstReader(ns, io, k, bound)
    case Some(j) => j
    case None => bound
  }

  /** The ready socket at key `j` read nothing and failed its probe. */
  predicate Drops(ns: map<nat, Handle>, io: TickInput, j: nat)
  {
    j in ns && |Read(io, ns[j])| == 0 && ns[j] in io.closed
  }

  /** The keys the pass disconnects: those before the stop that drop. */
  function Dropped(ns: map<nat, Handle>, io: TickInput, k: nat, stop: nat): set<nat>
  {
    set j: nat | k <= j < stop && Drops(ns, io, j)
  }

  /** `n` calls of the `on_socket_disconnect` hook. */
  function Disconnections(n: nat): (ev: seq<Event>)
    ensures |ev| == n && forall i :: 0 <= i < n ==> ev[i] == Disconnected
  {
    seq(n, _ => Disconnected)
  }

  /** The call of `socket_receive` the pass ends with, if any. */
  function Delivery(ns: map<nat, Handle>, io: TickInput, k: nat, bound: nat): (ev: seq<Event>)
    ensures |ev| <= 1
  {
    match FirstReader(ns, io, k, bound)
    case Some(j) => [Received(Read(io, ns[j]), ns[j])]
    case None => []
  }

  /** Dropping one more key in front. */
  lemma DroppedStep(ns: map<nat, Handle>, io: TickInput, k: nat, stop: nat)
    requires k < stop
    ensures Drops(ns, io, k) ==> Dropped(ns, io, k, stop) == Dropped(ns, io, k + 1, stop) + {k}
    ensures !Drops(ns, io, k) ==> Dropped(ns, io, k, stop) == Dropped(ns, io, k + 1, stop)
    ensures k !in Dropped(ns, io, k + 1, stop)
  {
  }

  /** The read pass disconnects exactly the dropping sockets before the
      first socket with data, calls `on_socket_disconnect` once for each,
      and ends with at most one delivery. */
  lemma {:induction false} ReadPassIs(s: map<nat, Handle>, ns: map<nat, Handle>, k: nat, bound: nat, io: TickInput)
    requires Distinct(s)
    requires forall j :: j in s ==> j < bound
    requires forall j :: j in ns && k <= j ==> j in s && s[j] == ns[j]
    ensures var dropped := Dropped(ns, io, k, Stop(ns, io, k, bound));
      ReadPass(s, ns, k, bound, io) == (s - dropped, Disconnections(|dropped|) + Delivery(ns, io, k, bound))
    decreases bound - k
  {
    var stop := Stop(ns, io, k, bound);
    if k >= bound {
      var dropped := Dropped(ns, io, k, stop);
      assert dropped == {};
      assert s - dropped == s;
      assert Disconnections(|dropped|) + Delivery(ns, io, k, bound) == [];
      assert ReadPass(s, ns, k, bound, io) == (s, []);
    } else if k in ns && |Read(io, ns[k])| >= 1 {
      assert stop == k;
      assert Dropped(ns, io, k, stop) == {};
      assert s - {} == s;
      assert Delivery(ns, io, k, bound) == [Received(Read(io, ns[k]), ns[k])];
      assert Disconnections(0) == [];
      assert ReadPass(s, ns, k, bound, io) == (s, [Received(Read(io, ns[k]), ns[k])]);
      var dropped := Dropped(ns, io, k, Stop(ns, io, k, bound));
      assert |dropped| == 0;
      assert s - dropped == s;
      assert Disconnections(|dropped|) + Delivery(ns, io, k, bound) == [Received(Read(io, ns[k]), ns[k])];
    } else if Drops(ns, io, k) {
      var s' := s - {k};
      assert Distinct(s');
      ReadPassIs(s', ns, k + 1, bound, io);
      ReadPassDropStep(s, ns, k, bound, io);
    } else {
      ReadPassIs(s, ns, k + 1, bound, io);
      ReadPassSkipStep(s, ns, k, bound, io);
    }
  }

  /** The step of `ReadPassIs` for a socket that drops. */
  lemma ReadPassDropStep(s: map<nat, Handle>, ns: map<nat, Handle>, k: nat, bound: nat, io: TickInput)
    requires Distinct(s)
    requires k < bound && Drops(ns, io, k)
    requires forall j :: j in ns && k <= j ==> j in s && s[j] == ns[j]
    requires var dropped := Dropped(ns, io, k + 1, Stop(ns, io, k + 1, bound));
      ReadPass(s - {k}, ns, k + 1, bound, io) == (s - {k} - dropped, Disconnections(|dropped|) + Delivery(ns, io, k + 1, bound))
    ensures var dropped := Dropped(ns, io, k, Stop(ns, io, k, bound));
      ReadPass(s, ns, k, bound, io) == (s - dropped, Disconnections(|dropped|) + Delivery(ns, io, k, bound))
  {
    var h := ns[k];
    DropStepKeys(ns, io, k, bound);
    var rest := Dropped(ns, io, k + 1, Stop(ns, io, k + 1, bound));
    assert forall j :: j < k && j in s ==> s[j] != h;
    DisconnectFirst(s, h, bound, k);
    var after := ReadPass(s - {k}, ns, k + 1, bound, io);
    assert ReadPass(s, ns, k, bound, io) == (after.0, [Disconnected] + after.1);
    RemoveOneMore(s, rest, k);
    var delivery := Delivery(ns, io, k, bound);
    assert after.1 == Disconnections(|rest|) + delivery;
    DisconnectionsOneMore(|rest|, delivery);
  }

  /** A dropping socket leaves the stop and the delivery alone and adds its
      own key to the dropped ones. */
  lemma DropStepKeys(ns: map<nat, Handle>, io: TickInput, k: nat, bound: nat)
    requires k < bound && Drops(ns, io, k)
    ensures Stop(ns, io, k, bound) == Stop(ns, io, k + 1, bound)
    ensures Delivery(ns, io, k, bound) == Delivery(ns, io, k + 1, bound)
    ensures var rest := Dropped(ns, io, k + 1, Stop(ns, io, k + 1, bound));
      Dropped(ns, io, k, Stop(ns, io, k, bound)) == rest + {k} && k !in rest
  {
    assert FirstReader(ns, io, k, bound) == FirstReader(ns, io, k + 1, bound);
    DroppedStep(ns, io, k, Stop(ns, io, k, bound));
  }

  /** Removing one more key that was not yet removed. */
  lemma RemoveOneMore(s: map<nat, Handle>, rest: set<nat>, k: nat)
    requires k !in rest
    ensures s - (rest + {k}) == s - {k} - rest
    ensures |rest + {k}| == |rest| + 1
  {
  }

  /** One more call of the hook in front. */
  lemma DisconnectionsOneMore(n: nat, tail: seq<Event>)
    ensures [Disconnected] + (Disconnections(n) + tail) == Disconnections(n + 1) + tail
  {
    assert [Disconnected] + Disconnections(n) == Disconnections(n + 1);
  }

  /** The step of `ReadPassIs` for a key that is not ready or a socket that
      read nothing but passed its probe. */
  lemma ReadPassSkipStep(s: map<nat, Handle>, ns: map<nat, Handle>, k: nat, bound: nat, io: TickInput)
    requires k < bound && !Drops(ns, io, k)
    requires !(k in ns && |Read(io, ns[k])| >= 1)
    requires var dropped := Dropped(ns, io, k + 1, Stop(ns, io, k + 1, bound));
      ReadPass(s, ns, k + 1, bound, io) == (s - dropped, Disconnections(|dropped|) + Delivery(ns, io, k + 1, bound))
    ensures var dropped := Dropped(ns, io, k, Stop(ns, io, k, bound));
      ReadPass(s, ns, k, bound, io) == (s - dropped, Disconnections(|dropped|) + Delivery(ns, io, k, bound))
  {
    assert FirstReader(ns, io, k, bound) == FirstReader(ns, io, k + 1, bound);
    var stop := Stop(ns, io, k, bound);
    assert stop == Stop(ns, io, k + 1, bound) && stop >= k + 1;
    DroppedStep(ns, io, k, stop);
  }

  // ---------------------------------------------------------------------
  // One pass of the loop, described from its inputs
  // ---------------------------------------------------------------------

  /** The socket `socket_accept` returns is a new resource: neither the
      listening socket nor one already registered. */
  predicate FreshAccept(listener: Handle, sockets: map<nat, Handle>, io: TickInput)
  {
    io.accepted != listener && io.accepted !in sockets.Values
  }

  /** What the acceptance step leaves for the read pass: a well-formed
      registry and a ready array that agrees with it, holds neither the
      listening socket nor the accepted one, and whose keys are old. */
  lemma AcceptStepFacts(listener: Handle, sockets: map<nat, Handle>, nextKey: nat, io: TickInput,
                        hostName: string, sha1: string -> Handshake.Digest)
    requires WellFormed(listener, sockets, nextKey)
    requires FreshAccept(listener, sockets, io)
    ensures var a := AcceptStep(listener, sockets, nextKey, io, hostName, sha1);
      && WellFormed(listener, a.sockets, a.nextKey)
      && (forall j :: j in a.newSockets <==> j in sockets && sockets[j] in io.ready && sockets[j] != listener)
      && (forall j :: j in a.newSockets ==> a.newSockets[j] == sockets[j] && a.sockets[j] == sockets[j])
      && (listener in Selected(sockets, io.ready).Values ==>
            a.sockets == sockets[nextKey := io.accepted] && a.nextKey == nextKey + 1
            && a.events == [HandshakeSent(io.accepted, Handshake.HandshakeResponse(io.request, hostName, sha1)),
                            Connected(io.accepted)])
      && (listener !in Selected(sockets, io.ready).Values ==>
            a.sockets == sockets && a.nextKey == nextKey && a.events == [])
  {
    var ns := Selected(sockets, io.ready);
    if listener in ns.Values {
      var r := ArraySearch(ns, listener, 0, nextKey);
      var j :| j in ns && ns[j] == listener;
      assert r.Some?;
      assert r.value == 0;
      var s' := sockets[nextKey := io.accepted];
      assert forall k :: k in s' && k != nextKey ==> k in sockets && s'[k] == sockets[k];
      assert forall k :: k in sockets ==> sockets[k] in sockets.Values;
    } else {
      forall j | j in sockets && sockets[j] in io.ready
        ensures sockets[j] != listener
      {
        assert ns[j] in ns.Values;
      }
    }
  }

  /** The whole pass: the registry after acceptance less the dropped keys,
      and the events `cycle_check`, acceptance, one `on_socket_disconnect`
      per dropped key and at most one delivery. */
  lemma TickIs(listener: Handle, sockets: map<nat, Handle>, nextKey: nat, io: TickInput,
               hostName: string, sha1: string -> Handshake.Digest)
    requires WellFormed(listener, sockets, nextKey)
    requires FreshAccept(listener, sockets, io)
    ensures var a := AcceptStep(listener, sockets, nextKey, io, hostName, sha1);
      var t := TickSpec(listener, sockets, nextKey, io, hostName, sha1);
      var dropped := Dropped(a.newSockets, io, 0, Stop(a.newSockets, io, 0, a.nextKey));
      && t.sockets == a.sockets - dropped
      && t.nextKey == a.nextKey
      && t.events == [CycleCheck] + a.events + Disconnections(|dropped|) + Delivery(a.newSockets, io, 0, a.nextKey)
  {
    var a := AcceptStep(listener, sockets, nextKey, io, hostName, sha1);
    AcceptStepFacts(listener, sockets, nextKey, io, hostName, sha1);
    ReadPassIs(a.sockets, a.newSockets, 0, a.nextKey, io);
  }

  /** The ready socket at key `j` takes part in the read pass: it is
      registered, reported ready, and not the listening socket. */
  predicate Serviced(listener: Handle, sockets: map<nat, Handle>, io: TickInput, j: nat)
  {
    j in sockets && sockets[j] in io.ready && sockets[j] != listener
  }

  /** The registry stays well-formed, and the listening socket stays at
      key 0. */
  lemma TickWellFormed(listener: Handle, sockets: map<nat, Handle>, nextKey: nat, io: TickInput,
                       hostName: string, sha1: string -> Handshake.Digest)
    requires WellFormed(listener, sockets, nextKey)
    requires FreshAccept(listener, sockets, io)
    ensures var t := TickSpec(listener, sockets, nextKey, io, hostName, sha1);
      && WellFormed(listener, t.sockets, t.nextKey)
      && (0 in sockets && sockets[0] == listener ==> 0 in t.sockets && t.sockets[0] == listener)
  {
    TickIs(listener, sockets, nextKey, io, hostName, sha1);
    AcceptStepFacts(listener, sockets, nextKey, io, hostName, sha1);
  }

  /** Entries are never changed, only added or removed: every entry after
      the pass is an old one, or the accepted socket at the old next free
      key, which is there exactly when the listening socket was ready. */
  lemma TickKeepsEntries(listener: Handle, sockets: map<nat, Handle>, nextKey: nat, io: TickInput,
                         hostName: string, sha1: string -> Handshake.Digest)
    requires WellFormed(listener, sockets, nextKey)
    requires FreshAccept(listener, sockets, io)
    ensures var t := TickSpec(listener, sockets, nextKey, io, hostName, sha1);
      && (forall k :: k in t.sockets ==>
            (k in sockets && t.sockets[k] == sockets[k]) || (k == nextKey && t.sockets[k] == io.accepted))
      && (listener in sockets.Values && listener in io.ready ==>
            t.nextKey == nextKey + 1 && nextKey in t.sockets && t.sockets[nextKey] == io.accepted)
      && (!(listener in sockets.Values && listener in io.ready) ==> t.nextKey == nextKey && t.sockets.Keys <= sockets.Keys)
  {
    TickIs(listener, sockets, nextKey, io, hostName, sha1);
    AcceptStepFacts(listener, sockets, nextKey, io, hostName, sha1);
    ListenerReady(listener, sockets, io);
  }

  /** The listening socket is in the ready array exactly when it is
      registered and reported ready. */
  lemma ListenerReady(listener: Handle, sockets: map<nat, Handle>, io: TickInput)
    ensures listener in Selected(sockets, io.ready).Values <==> listener in sockets.Values && listener in io.ready
  {
    var ns := Selected(sockets, io.ready);
    if listener in sockets.Values && listener in io.ready {
      var j :| j in sockets && sockets[j] == listener;
      assert ns[j] == listener;
    }
    forall j | j in ns
      ensures ns[j] in sockets.Values && ns[j] in io.ready
    {
      assert sockets[j] in sockets.Values;
    }
  }

  /** A ready key is dropped exactly when its socket drops and no earlier
      ready socket yielded data. */
  lemma DroppedIff(ns: map<nat, Handle>, io: TickInput, bound: nat, k: nat)
    requires k in ns && k < bound
    ensures k in Dropped(ns, io, 0, Stop(ns, io, 0, bound))
        <==> Drops(ns, io, k) && forall j :: j < k && j in ns ==> |Read(io, ns[j])| == 0
  {
    var first := FirstReader(ns, io, 0, bound);
    if first.Some? && Drops(ns, io, k) {
      assert k != first.value;
    }
  }

  /** The delivery is the first ready socket with data, if there is one. */
  lemma DeliveryIs(ns: map<nat, Handle>, io: TickInput, bound: nat)
    requires forall j :: j in ns ==> j < bound
    ensures forall k :: k in ns && |Read(io, ns[k])| >= 1 && (forall j :: j < k && j in ns ==> |Read(io, ns[j])| == 0)
                        ==> Delivery(ns, io, 0, bound) == [Received(Read(io, ns[k]), ns[k])]
    ensures (forall k :: k in ns ==> |Read(io, ns[k])| == 0) ==> Delivery(ns, io, 0, bound) == []
    ensures |Delivery(ns, io, 0, bound)| == 1 ==>
              exists k :: k in ns && Delivery(ns, io, 0, bound)[0] == Received(Read(io, ns[k]), ns[k])
  {
    var first := FirstReader(ns, io, 0, bound);
    forall k | k in ns && |Read(io, ns[k])| >= 1 && (forall j :: j < k && j in ns ==> |Read(io, ns[j])| == 0)
      ensures first == Some(k)
    {
    }
  }

  /** A registered socket is disconnected exactly when it takes part in the
      pass, reads nothing, fails its probe, and no socket before it in the
      pass yielded data. */
  lemma TickRemoval(listener: Handle, sockets: map<nat, Handle>, nextKey: nat, io: TickInput,
                    hostName: string, sha1: string -> Handshake.Digest)
    requires WellFormed(listener, sockets, nextKey)
    requires FreshAccept(listener, sockets, io)
    ensures var t := TickSpec(listener, sockets, nextKey, io, hostName, sha1);
      forall k :: k in sockets ==>
        (k !in t.sockets <==>
           && Serviced(listener, sockets, io, k)
           && |Read(io, sockets[k])| == 0 && sockets[k] in io.closed
           && (forall j :: j < k && Serviced(listener, sockets, io, j) ==> |Read(io, sockets[j])| == 0))
  {
    TickIs(listener, sockets, nextKey, io, hostName, sha1);
    AcceptStepFacts(listener, sockets, nextKey, io, hostName, sha1);
    var a := AcceptStep(listener, sockets, nextKey, io, hostName, sha1);
    forall k | k in sockets && Serviced(listener, sockets, io, k)
    {
      DroppedIff(a.newSockets, io, a.nextKey, k);
    }
  }

  /** The events of a pass end with its delivery, and nothing before it is
      a delivery. */
  lemma TickEventsEnd(listener: Handle, sockets: map<nat, Handle>, nextKey: nat, io: TickInput,
                      hostName: string, sha1: string -> Handshake.Digest)
    requires WellFormed(listener, sockets, nextKey)
    requires FreshAccept(listener, sockets, io)
    ensures var a := AcceptStep(listener, sockets, nextKey, io, hostName, sha1);
      var t := TickSpec(listener, sockets, nextKey, io, hostName, sha1);
      var d := Delivery(a.newSockets, io, 0, a.nextKey);
      && |t.events| >= 1 + |d|
      && t.events[|t.events| - |d|..] == d
      && forall i :: 0 <= i < |t.events| - |d| ==> !t.events[i].Received?
  {
    TickIs(listener, sockets, nextKey, io, hostName, sha1);
    var a := AcceptStep(listener, sockets, nextKey, io, hostName, sha1);
    var t := TickSpec(listener, sockets, nextKey, io, hostName, sha1);
    var dropped := Dropped(a.newSockets, io, 0, Stop(a.newSockets, io, 0, a.nextKey));
    var d := Delivery(a.newSockets, io, 0, a.nextKey);
    var front := [CycleCheck] + a.events + Disconnections(|dropped|);
    assert t.events == front + d;
    assert forall i :: 0 <= i < |front| ==> !front[i].Received?;
  }

  /** At most one message is delivered, as the last event of the pass, and
      never from the socket accepted in the same pass. */
  lemma TickDeliversLast(listener: Handle, sockets: map<nat, Handle>, nextKey: nat, io: TickInput,
                         hostName: string, sha1: string -> Handshake.Digest)
    requires WellFormed(listener, sockets, nextKey)
    requires FreshAccept(listener, sockets, io)
    ensures var t := TickSpec(listener, sockets, nextKey, io, hostName, sha1);
      forall i :: 0 <= i < |t.events| && t.events[i].Received? ==>
        i == |t.events| - 1 && t.events[i].peer != io.accepted
  {
    TickEventsEnd(listener, sockets, nextKey, io, hostName, sha1);
    AcceptStepFacts(listener, sockets, nextKey, io, hostName, sha1);
    var a := AcceptStep(listener, sockets, nextKey, io, hostName, sha1);
    var d := Delivery(a.newSockets, io, 0, a.nextKey);
    DeliveryIs(a.newSockets, io, a.nextKey);
    if |d| == 1 {
      var k :| k in a.newSockets && d[0] == Received(Read(io, a.newSockets[k]), a.newSockets[k]);
      assert sockets[k] in sockets.Values;
    }
  }

  /** The message delivered is the data of the first socket of the pass that
      yielded any; when none did, nothing is delivered. */
  lemma TickDeliversFirst(listener: Handle, sockets: map<nat, Handle>, nextKey: nat, io: TickInput,
                          hostName: string, sha1: string -> Handshake.Digest)
    requires WellFormed(listener, sockets, nextKey)
    requires FreshAccept(listener, sockets, io)
    ensures var t := TickSpec(listener, sockets, nextKey, io, hostName, sha1);
      && (forall k :: Serviced(listener, sockets, io, k) && |Read(io, sockets[k])| >= 1
                     && (forall j :: j < k && Serviced(listener, sockets, io, j) ==> |Read(io, sockets[j])| == 0)
                     ==> t.events[|t.events| - 1] == Received(Read(io, sockets[k]), sockets[k]))
      && ((forall k :: Serviced(listener, sockets, io, k) ==> |Read(io, sockets[k])| == 0)
          ==> forall i :: 0 <= i < |t.events| ==> !t.events[i].Received?)
  {
    TickEventsEnd(listener, sockets, nextKey, io, hostName, sha1);
    AcceptStepFacts(listener, sockets, nextKey, io, hostName, sha1);
    var a := AcceptStep(listener, sockets, nextKey, io, hostName, sha1);
    DeliveryIs(a.newSockets, io, a.nextKey);
  }

  // ---------------------------------------------------------------------
  // Counting
  // ---------------------------------------------------------------------

  /** The calls of the `connect_socket` hook among `ev`. */
  function Connects(ev: seq<Event>): nat
    decreases |ev|
  {
    if |ev| == 0 then 0 else Connects(ev[..|ev| - 1]) + (if ev[|ev| - 1].Connected? then 1 else 0)
  }

  /** The calls of the `on_socket_disconnect` hook among `ev`. */
  function Disconnects(ev: seq<Event>): nat
    decreases |ev|
  {
    if |ev| == 0 then 0 else Disconnects(ev[..|ev| - 1]) + (if ev[|ev| - 1].Disconnected? then 1 else 0)
  }

  /** Counts add up over concatenation. */
  lemma {:induction false} CountsAppend(a: seq<Event>, b: seq<Event>)
    ensures Connects(a + b) == Connects(a) + Connects(b)
    ensures Disconnects(a + b) == Disconnects(a) + Disconnects(b)
    decreases |b|
  {
    if |b| > 0 {
      var b' := b[..|b| - 1];
      CountsAppend(a, b');
      assert (a + b)[..|a + b| - 1] == a + b';
    } else {
      assert a + b == a;
    }
  }

  /** `n` disconnections are `n` calls of `on_socket_disconnect` and none of
      `connect_socket`. */
  lemma {:induction false} DisconnectionsCount(n: nat)
    ensures Disconnects(Disconnections(n)) == n && Connects(Disconnections(n)) == 0
  {
    if n > 0 {
      DisconnectionsCount(n - 1);
      assert Disconnections(n)[..n - 1] == Disconnections(n - 1);
    }
  }

  /** Removing keys a map has shrinks it by their number. */
  lemma MapMinusSize(m: map<nat, Handle>, r: set<nat>)
    requires r <= m.Keys
    ensures |m - r| == |m| - |r|
  {
    assert (m - r).Keys == m.Keys - r;
    assert m.Keys == (m.Keys - r) + r;
  }

  /** The hook calls of one pass: one `connect_socket` when the listening
      socket was ready, one `on_socket_disconnect` per dropped key. */
  lemma TickEventCounts(listener: Handle, sockets: map<nat, Handle>, nextKey: nat, io: TickInput,
                        hostName: string, sha1: string -> Handshake.Digest)
    requires WellFormed(listener, sockets, nextKey)
    requires FreshAccept(listener, sockets, io)
    ensures var a := AcceptStep(listener, sockets, nextKey, io, hostName, sha1);
      var t := TickSpec(listener, sockets, nextKey, io, hostName, sha1);
      && Connects(t.events) == a.nextKey - nextKey
      && Disconnects(t.events) == |Dropped(a.newSockets, io, 0, Stop(a.newSockets, io, 0, a.nextKey))|
  {
    TickIs(listener, sockets, nextKey, io, hostName, sha1);
    AcceptStepFacts(listener, sockets, nextKey, io, hostName, sha1);
    var a := AcceptStep(listener, sockets, nextKey, io, hostName, sha1);
    var dropped := Dropped(a.newSockets, io, 0, Stop(a.newSockets, io, 0, a.nextKey));
    var d := Delivery(a.newSockets, io, 0, a.nextKey);
    DisconnectionsCount(|dropped|);
    CountsAppend([CycleCheck], a.events);
    CountsAppend([CycleCheck] + a.events, Disconnections(|dropped|));
    CountsAppend([CycleCheck] + a.events + Disconnections(|dropped|), d);
    assert [CycleCheck][..0] == [];
    assert Connects(d) == 0 && Disconnects(d) == 0 by {
      if |d| == 1 {
        assert d[..0] == [];
      }
    }
    var e := a.events;
    if |e| == 2 {
      assert e[..1][..0] == [] && e[..1] == [e[0]];
    }
  }

  /** The size of the registry after one pass: one more for an accepted
      connection, one less per dropped key. */
  lemma TickSize(listener: Handle, sockets: map<nat, Handle>, nextKey: nat, io: TickInput,
                 hostName: string, sha1: string -> Handshake.Digest)
    requires WellFormed(listener, sockets, nextKey)
    requires FreshAccept(listener, sockets, io)
    ensures var a := AcceptStep(listener, sockets, nextKey, io, hostName, sha1);
      var t := TickSpec(listener, sockets, nextKey, io, hostName, sha1);
      |t.sockets| == |sockets| + (a.nextKey - nextKey) - |Dropped(a.newSockets, io, 0, Stop(a.newSockets, io, 0, a.nextKey))|
  {
    TickIs(listener, sockets, nextKey, io, hostName, sha1);
    AcceptStepFacts(listener, sockets, nextKey, io, hostName, sha1);
    var a := AcceptStep(listener, sockets, nextKey, io, hostName, sha1);
    var dropped := Dropped(a.newSockets, io, 0, Stop(a.newSockets, io, 0, a.nextKey));
    assert dropped <= a.sockets.Keys;
    MapMinusSize(a.sockets, dropped);
    if a.nextKey == nextKey + 1 {
      assert nextKey !in sockets;
    }
  }

  /** Each accepted connection adds an entry and each disconnection removes
      one: size plus `on_socket_disconnect` calls equals the old size plus
      `connect_socket` calls. */
  lemma TickCount(listener: Handle, sockets: map<nat, Handle>, nextKey: nat, io: TickInput,
                  hostName: string, sha1: string -> Handshake.Digest)
    requires WellFormed(listener, sockets, nextKey)
    requires FreshAccept(listener, sockets, io)
    ensures var t := TickSpec(listener, sockets, nextKey, io, hostName, sha1);
      |t.sockets| + Disconnects(t.events) == |sockets| + Connects(t.events)
  {
    TickEventCounts(listener, sockets, nextKey, io, hostName, sha1);
    TickSize(listener, sockets, nextKey, io, hostName, sha1);
  }

  // ---------------------------------------------------------------------
  // The loop of `start`
  // ---------------------------------------------------------------------

  /** One pass of the loop on a state: the events of the pass are appended
      to those so far. */
  function Step(listener: Handle, s: TickState, io: TickInput,
                hostName: string, sha1: string -> Handshake.Digest): (r: TickState)
    ensures |r.events| >= |s.events| && r.events[..|s.events|] == s.events
  {
    var t := TickSpec(listener, s.sockets, s.nextKey, io, hostName, sha1);
    TickState(t.sockets, t.nextKey, t.newSockets, s.events + t.events)
  }

  /** The passes of the loop, one per input, while `is_alive` holds. */
  function RunSpec(listener: Handle, s: TickState, inputs: seq<TickInput>,
                   hostName: string, sha1: string -> Handshake.Digest): TickState
    decreases |inputs|
  {
    if |inputs| == 0 then s
    else RunSpec(listener, Step(listener, s, inputs[0], hostName, sha1), inputs[1..], hostName, sha1)
  }

  /** Every socket `socket_accept` returns during the run is a new resource
      when it is returned. */
  predicate AcceptsFresh(listener: Handle, s: TickState, inputs: seq<TickInput>,
                         hostName: string, sha1: string -> Handshake.Digest)
    decreases |inputs|
  {
    |inputs| == 0 ||
    (FreshAccept(listener, s.sockets, inputs[0])
     && AcceptsFresh(listener, Step(listener, s, inputs[0], hostName, sha1), inputs[1..], hostName, sha1))
  }

  /** The run from the `i`-th input on is its first pass followed by the
      rest. */
  lemma RunSpecStep(listener: Handle, s: TickState, inputs: seq<TickInput>, i: nat,
                    hostName: string, sha1: string -> Handshake.Digest)
    requires i < |inputs|
    ensures RunSpec(listener, s, inputs[i..], hostName, sha1)
         == RunSpec(listener, Step(listener, s, inputs[i], hostName, sha1), inputs[i + 1..], hostName, sha1)
    ensures AcceptsFresh(listener, s, inputs[i..], hostName, sha1)
        <==> FreshAccept(listener, s.sockets, inputs[i])
             && AcceptsFresh(listener, Step(listener, s, inputs[i], hostName, sha1), inputs[i + 1..], hostName, sha1)
  {
    assert inputs[i..][1..] == inputs[i + 1..];
  }

  /** The state `start` sets up before its loop: the listening socket alone,
      at key 0, and no events yet. */
  function Initial(listener: Handle): (s: TickState)
    ensures WellFormed(listener, s.sockets, s.nextKey)
    ensures |s.sockets| == 1 && 0 in s.sockets && s.sockets[0] == listener
  {
    TickState(map[0 := listener], 1, map[], [])
  }

  /** One pass keeps the registry well-formed, keeps the listening socket
      at key 0, and keeps the balance of entries against hook calls. */
  lemma StepInvariant(listener: Handle, s: TickState, io: TickInput,
                      hostName: string, sha1: string -> Handshake.Digest)
    requires WellFormed(listener, s.sockets, s.nextKey)
    requires FreshAccept(listener, s.sockets, io)
    ensures var r := Step(listener, s, io, hostName, sha1);
      && WellFormed(listener, r.sockets, r.nextKey)
      && (0 in s.sockets && s.sockets[0] == listener ==> 0 in r.sockets && r.sockets[0] == listener)
      && |r.sockets| + Disconnects(r.events) - Connects(r.events) == |s.sockets| + Disconnects(s.events) - Connects(s.events)
  {
    TickWellFormed(listener, s.sockets, s.nextKey, io, hostName, sha1);
    TickCount(listener, s.sockets, s.nextKey, io, hostName, sha1);
    var t := TickSpec(listener, s.sockets, s.nextKey, io, hostName, sha1);
    CountsAppend(s.events, t.events);
  }

  /** The whole run keeps the registry well-formed, keeps the listening
      socket at key 0, only appends events, and keeps the balance of
      entries against hook calls. */
  lemma {:induction false} RunInvariant(listener: Handle, s: TickState, inputs: seq<TickInput>,
                                        hostName: string, sha1: string -> Handshake.Digest)
    requires WellFormed(listener, s.sockets, s.nextKey)
    requires AcceptsFresh(listener, s, inputs, hostName, sha1)
    ensures var r := RunSpec(listener, s, inputs, hostName, sha1);
      && WellFormed(listener, r.sockets, r.nextKey)
      && (0 in s.sockets && s.sockets[0] == listener ==> 0 in r.sockets && r.sockets[0] == listener)
      && |r.events| >= |s.events| && r.events[..|s.events|] == s.events
      && |r.sockets| + Disconnects(r.events) - Connects(r.events) == |s.sockets| + Disconnects(s.events) - Connects(s.events)
    decreases |inputs|
  {
    if |inputs| > 0 {
      var s' := Step(listener, s, inputs[0], hostName, sha1);
      StepInvariant(listener, s, inputs[0], hostName, sha1);
      RunInvariant(listener, s', inputs[1..], hostName, sha1);
      var r := RunSpec(listener, s', inputs[1..], hostName, sha1);
      assert r.events[..|s.events|] == r.events[..|s'.events|][..|s.events|];
    }
  }

  /** From the initial state, after N calls of `connect_socket` and M calls
      of `on_socket_disconnect`, the registry holds 1 + N - M sockets, the
      listening one still at key 0. */
  lemma RegistrySize(listener: Handle, inputs: seq<TickInput>,
                     hostName: string, sha1: string -> Handshake.Digest)
    requires AcceptsFresh(listener, Initial(listener), inputs, hostName, sha1)
    ensures var r := RunSpec(listener, Initial(listener), inputs, hostName, sha1);
      && |r.sockets| == 1 + Connects(r.events) - Disconnects(r.events)
      && 0 in r.sockets && r.sockets[0] == listener
  {
    RunInvariant(listener, Initial(listener), inputs, hostName, sha1);
  }
}
