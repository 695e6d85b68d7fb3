# socketeer in Dafny

socketeer is an abstract PHP class for a small WebSocket server. A
subclass supplies the host name and the application hooks
(`cycle_check`, `connect_socket`, `socket_receive`,
`on_socket_disconnect`, `cleanup`, `is_alive`). The class itself does four
things, and this project models each one:

- **Frame codec** (`framing.dfy`, module `Framing`). `seal` wraps a
  payload in an unmasked final text frame (section 5.2 of RFC 6455).
  `unseal` strips the header of a client frame and removes the client's
  masking (section 5.3 of RFC 6455). `DecodeFrame` is an independent reader
  of the base framing, and both operations are proved against it.
- **Opening handshake** (`handshake.dfy` and `base64.dfy`, modules
  `Handshake` and `Base64`). `do_handshake` does the following:
  - cuts the request at every CRLF;
  - removes from the end of each line the characters `chop` strips (space, tab, line feed, carriage return, NUL, vertical tab);
  - collects `NAME: VALUE` lines into a dictionary;
  - answers with the HTTP 101 reply carrying
    base64(SHA-1(key + GUID)), as in section 4.2.2 of RFC 6455.

  Base 64 follows section 4 of RFC 4648 and comes with a decoder as its
  inverse. SHA-1 is a parameter: any function to 20 octets.
- **Connection registry and event loop** (`registry.dfy` and `server.dfy`,
  modules `Registry` and `Server`). The registry `$this->sockets` is a
  `map<nat, Handle>` plus the next free key. This is how PHP appends to an
  integer-keyed array: iteration follows ascending keys, and an `unset`
  never renumbers. The class `Server.Socketeer` holds the registry, the
  ready array and a record of events (hook calls and writes). Its methods
  update these in place:
  - `Tick`: one pass of the `while` loop of `start`;
  - `Run`: `start` itself;
  - `DisconnectSingleSocket`;
  - `WriteToSingleSocket` and `WriteToSockets`.

  Each method is proved against functions of the `Registry` module
  (`TickSpec`, `RunSpec`, `Disconnect`). The lemmas about those functions
  state what the loop guarantees:
  - the registry stays well-formed;
  - at most one message is delivered per pass, as the pass's last event;
  - a socket is never read in the pass that accepted it;
  - a socket is removed only when it read nothing and failed its probe;
  - the registry holds 1 + N − M sockets after N connections and M
    disconnections.
- **Log gate** (`log_gate.dfy`, module `LogGate`). `log` decides whether
  a line is written, based on the configured level and the caller's level.

What the sockets report in each pass is an input (`Registry.TickInput`):
- the sockets `socket_select` marks ready;
- the socket `socket_accept` returns;
- the request bytes;
- what `socket_recv` reads;
- which probe reads fail.

The application hooks and the writes to sockets become `Registry.Event`
values appended to the server's event record.

## Model

| member | source | states |
|---|---|---|
| Framing.Seal | src/socketeer.php:284-296 | a frame exists exactly for payloads up to 65535 octets; it is 2 or 4 octets longer than the payload and ends with the payload unchanged |
| Framing.SealMatchesIntended | src/socketeer.php:286-292 | up to 65535 octets, seal emits FIN+text, the 7-bit or 16-bit big-endian length, then the payload |
| Framing.SealLengthField | src/socketeer.php:289-294 | at most 125 octets: header 0x81 then the length; 126 to 65535 octets: 0x81, marker 126 and a 16-bit length that reads back as the payload length; 65536 octets or more: no frame |
| Framing.SealDecodes | src/socketeer.php:284-296 | every frame seal builds reads back, under the RFC 6455 reader, as an unmasked final text frame carrying exactly the payload |
| Framing.SealWorld | src/socketeer.php:284-296 | the text "world" is sealed as 0x81 0x05 'w' 'o' 'r' 'l' 'd' |
| Framing.SealIntendedDecodes | src/socketeer.php:293-294 | the corrected frame, with an 8-octet length beyond 65535, is well formed and carries the payload for every length RFC 6455 allows |
| Framing.LengthFieldDecodes | src/socketeer.php:289-294 | each length encoding (7-bit, marker 126 + 16-bit, marker 127 + 64-bit with the top bit clear) reads back as the length |
| Framing.MaskInvolution | src/socketeer.php:271-275 | XOR with the key repeated every 4 octets undoes itself |
| Framing.Unseal | src/socketeer.php:258-276 | the loop builds octet i as data[i] XOR mask[i mod 4], which is the reference `Unsealed` |
| Framing.UnsealedLength | src/socketeer.php:260-270 | the output is as long as the input after offset 6, 8 or 14 (empty when the input is no longer than that) |
| Framing.UnsealedIgnoresHeader | src/socketeer.php:260-270 | only the low 7 bits of octet 1, the four key octets and the data matter; octet 0, the MASK bit and the extended length octets do not |
| Framing.UnsealAgreesWithDecode | src/socketeer.php:258-276 | on every well-formed masked frame, unseal returns the payload the RFC 6455 reader finds |
| Framing.UnsealMaskedTextFrame | src/socketeer.php:258-276 | unseal recovers the payload of any masked client text frame, whatever its length encoding |
| Framing.UnsealShortFrame | src/socketeer.php:267-275 | with a 7-bit length below 126, unseal([b0, b1] + key + mask(p, key)) == p, whatever b0 and the MASK bit are |
| Framing.UnsealOfSeal | src/socketeer.php:258-296 | unseal does not invert seal: it treats the first four payload octets as a key, and no non-empty short payload comes back unchanged |
| Octets.BigEndianRoundTrip | src/socketeer.php:292 | the big-endian octets `pack('n')` writes read back as the value |
| Base64.Encode | src/socketeer.php:243 | the encoding has 4 characters per started group of 3 octets |
| Base64.DecodeEncode | src/socketeer.php:243 | decoding the encoding gives the octets back, so no information is lost |
| Base64.EncodeAlphabet | src/socketeer.php:243 | every character is from the alphabet or '=', and '=' only occurs in the last two positions (never when the length is a multiple of 3) |
| Base64.EncodePadding | src/socketeer.php:243 | one leftover octet gives "==", two give "=", each after an alphabet character |
| Handshake.SplitCrlf | src/socketeer.php:234 | there is at least one piece, and the first is a prefix of the request |
| Handshake.JoinSplitCrlf | src/socketeer.php:234 | the pieces joined with CRLF give back the request |
| Handshake.SplitCrlfPieces | src/socketeer.php:234 | no piece contains CRLF |
| Handshake.SplitCrlfPrefix | src/socketeer.php:234 | a CRLF-free line followed by CRLF splits off as the first piece |
| Handshake.Chop | src/socketeer.php:236 | the result is a prefix of the line that does not end in space, tab, LF, CR, NUL or VT, and only such characters were cut |
| Handshake.ChopKeeps | src/socketeer.php:236 | a line not ending in one of those characters is unchanged |
| Handshake.MatchHeaderLineIff | src/socketeer.php:237 | the matcher yields (name, value) iff line == name + ": " + value, with name non-empty and free of white space, and value free of line feeds |
| Handshake.ChoppedValue | src/socketeer.php:236-237 | after chop, a recorded value is non-empty and does not end in a character chop removes |
| Handshake.HeaderMapDomain | src/socketeer.php:235-239 | a name is in the dictionary iff some line declares it |
| Handshake.HeaderMapLastWins | src/socketeer.php:238 | the stored value is that of the last line declaring the name |
| Handshake.ParseHeaders | src/socketeer.php:233-240 | the loop fills the dictionary as the line-by-line fold `HeaderMap` does |
| Handshake.AcceptTokenShape | src/socketeer.php:243 | the token is 27 alphabet characters followed by '=', and it decodes to the SHA-1 digest |
| Handshake.AcceptTokenExample | src/socketeer.php:243 | for a SHA-1 that maps the key of section 1.3 of RFC 6455 + GUID to the published digest, the token is "s3pPLMBiTxaQ9kYGzzhZRbK+xOo=" |
| Handshake.HandshakeKey | src/socketeer.php:242-243 | the reply answers the key of the last line declaring Sec-WebSocket-Key |
| Handshake.HandshakeNoKey | src/socketeer.php:242-243 | a request with no line declaring Sec-WebSocket-Key is answered as if the key were empty |
| Handshake.DoHandshake | src/socketeer.php:231-250 | the buffer written is the reply built from the parsed key |
| Handshake.ResponseLines | src/socketeer.php:244-248 | split at CRLF, the reply is the status line, Upgrade, Connection, WebSocket-Origin + host, "Sec-WebSocket-Accept:" + token (no space), then two empty pieces |
| LogGate.Decide | src/socketeer.php:107-127 | the caller is rejected exactly when its level is neither 1 nor 2 |
| LogGate.WrittenIff | src/socketeer.php:114-127 | a line is written iff the caller level is 1 or 2 and the configured level is 3 or equals the caller level |
| LogGate.SilentLevels | src/socketeer.php:127 | level 0, or any level outside 0..3, never writes |
| LogGate.ZeroTestRedundant | src/socketeer.php:114-127 | the separate `log !== 0` test never changes the outcome |
| Registry.ArraySearch | src/socketeer.php:301 | the result is the first key in ascending order that holds the socket, or none when no key does |
| Registry.DisconnectFirst | src/socketeer.php:301-302 | only the first entry holding the socket is removed |
| Registry.DisconnectPresent | src/socketeer.php:298-304 | in a well-formed registry, the socket is gone, the size drops by one, and the registry stays well-formed |
| Registry.DisconnectAbsent | src/socketeer.php:301-302 | disconnecting a socket that is not registered removes key 0, the listening socket |
| Registry.ReadPassIs | src/socketeer.php:203-214 | the read pass removes exactly the dropping sockets before the first socket with data, calls on_socket_disconnect once each, and ends with at most one delivery |
| Registry.AcceptStepFacts | src/socketeer.php:188-201 | when the listening socket is ready, the accepted socket is appended at the next key and the handshake reply precedes connect_socket; the ready array then holds neither the listening socket nor the new one |
| Registry.TickIs | src/socketeer.php:182-214 | a pass is cycle_check, the acceptance events, one disconnection per dropped key, then the delivery |
| Registry.TickWellFormed | src/socketeer.php:182-214 | the registry stays well-formed and the listening socket stays at key 0 |
| Registry.TickKeepsEntries | src/socketeer.php:188-190 | entries are only added (the accepted socket at the old next key, exactly when the listener was ready) or removed, never changed |
| Registry.ListenerReady | src/socketeer.php:188 | the listening socket is in the ready array iff it is registered and reported ready |
| Registry.DroppedIff | src/socketeer.php:203-213 | a ready key is dropped iff its socket read nothing and failed its probe, and no earlier ready socket yielded data |
| Registry.DeliveryIs | src/socketeer.php:204-207 | the delivery is the data of the first ready socket that yielded any, or nothing |
| Registry.TickRemoval | src/socketeer.php:203-213 | a registered socket is removed iff it was serviced, read nothing, failed its probe, and no earlier serviced socket yielded data |
| Registry.TickEventsEnd | src/socketeer.php:203-214 | the events of a pass end with the delivery, and no earlier event is a delivery |
| Registry.TickDeliversLast | src/socketeer.php:197-207 | at most one socket_receive per pass, as the last event, never for the socket accepted in that pass |
| Registry.TickDeliversFirst | src/socketeer.php:203-207 | the message delivered comes from the first serviced socket with data; with none, nothing is delivered |
| Registry.TickEventCounts | src/socketeer.php:182-214 | a pass calls connect_socket once when a socket is accepted, and on_socket_disconnect once per dropped key |
| Registry.TickSize | src/socketeer.php:184-213 | the registry grows by the accepted socket and shrinks by the dropped keys |
| Registry.TickCount | src/socketeer.php:184-213 | size + disconnections == old size + connections |
| Registry.Step | src/socketeer.php:180-214 | a pass only appends to the event record |
| Registry.Initial | src/socketeer.php:179 | the loop starts with the listening socket alone at key 0, in a well-formed registry |
| Registry.StepInvariant | src/socketeer.php:180-214 | one pass keeps well-formedness, the listener at key 0, and the balance of entries against hook calls |
| Registry.RunInvariant | src/socketeer.php:180-215 | the whole loop keeps well-formedness and the listener at key 0, only appends events, and keeps the balance |
| Registry.RegistrySize | src/socketeer.php:179-215 | after N connect_socket and M on_socket_disconnect calls, the registry holds 1 + N − M sockets, the listening one still at key 0 |
| Server.Socketeer.constructor | src/socketeer.php:146-150 | the settings are stored and both socket arrays start empty |
| Server.Socketeer.DisconnectSingleSocket | src/socketeer.php:298-304 | returns true; removes the entry `array_search` finds, which is key 0 for an unregistered socket; nothing else changes; a well-formed registry stays well-formed |
| Registry.DisconnectKeepsWellFormed | src/socketeer.php:301-302 | unsetting the key `array_search` finds, for any socket, keeps the registry well-formed |
| Server.Socketeer.Tick | src/socketeer.php:182-214 | one pass updates registry, ready array and event record as `TickSpec`, and keeps the registry well-formed |
| Server.Socketeer.AcceptReady | src/socketeer.php:184-200 | selection and acceptance update registry, next key, ready array and events as `AcceptStep` |
| Server.Socketeer.ReadReady | src/socketeer.php:203-214 | the foreach with `break 2` updates registry and events as `ReadPass` |
| Server.Socketeer.Run | src/socketeer.php:175-221 | the loop state is `RunSpec` of the inputs from the initial registry, followed by socket_close and cleanup |
| Server.Socketeer.WriteToSingleSocket | src/socketeer.php:306-312 | returns true and writes the sealed frame exactly when the text fits; otherwise the failure of seal propagates and nothing is written |
| Server.Socketeer.WriteToSockets | src/socketeer.php:314-320 | writes the same frame to every peer in order; a text too long to seal fails on the first peer with nothing written; an empty list succeeds |

## Left out

- Socket I/O is replaced by per-pass inputs: `socket_create`, `socket_set_option`, `socket_bind`, `socket_listen`, `socket_select`, `socket_accept`, `socket_read`, `socket_recv`, `socket_write`, `socket_getpeername` and `socket_close`. The listening socket is a constructor parameter. Written replies and frames are recorded as events.
- The 1024-octet limits of `socket_read` and `socket_recv` are not modelled: the request and the received data are whatever the input says.
- `socket_accept` returning false is not modelled. The accepted socket is always a new resource (`FreshAccept`), and distinct resources stay distinct.
- SHA-1 is not implemented. It is a parameter returning 20 octets, standing for `sha1` followed by `pack('H*', …)`. The RFC 6455 section 1.3 vector is therefore stated for any SHA-1 that gives the published digest.
- Logging side effects (`file_put_contents`, `error_log`, `debug_backtrace`, `strtotime`) are left out. Only the decision `LogGate.Decide` is kept; the calls of `log` inside the loop are not recorded as events.
- The application hooks are abstract. Their calls become events, and `is_alive` becomes the length of the input sequence of `Run`.
- The constructor's call of `start` is split off: `Server.Socketeer.Run` is `start`, called after the constructor.
- `in_array` and `array_search` compare with loose `==`. Here sockets are compared by identity.
- LogGate.Decide: the caller level is an `int`. The source's `$intCaller` is untyped: `in_array` at line 107 compares loosely, while lines 116-124 compare with `===`, so a caller of "1", true or 1.0 passes the first test and is then skipped. Every call in the file passes the integer 1, so this is not modelled.
- Header names are dictionary keys as strings. PHP's conversion of numeric-string keys to integers is not modelled.
- Framing.Seal: the model follows PHP 8, where `pack('CCNN', …)` throws a ValueError for payloads of 65536 octets or more; this is the failure `PackArgumentMissing`, and `Server.Socketeer.WriteToSingleSocket` then writes nothing.
- Framing.Seal: under PHP 7.4 `pack` instead returns false with a warning, `false . $socketData` is the bare payload, and `write_to_single_socket` writes those octets without any header and returns true (lines 295 and 308-311). That header-less write is not modelled.
- Framing.Unseal: malformed input is handled as PHP does, with no precondition. A missing second octet reads as 0, and `substr` past the end gives "", so short input unseals to the empty string.
- Server.Socketeer.Tick: the hook receives the raw octets read from the socket (line 206), not the unsealed message. The model follows the code.
- Registry.DisconnectAbsent: disconnecting an unregistered socket removes key 0 and still returns true (lines 301-303). It is not a no-op returning false. The model follows the code.
- Framing.UnsealOfSeal: `unseal(seal(p)) == p` does not hold for this code, because seal emits no masking key. The model proves how the round trip fails instead.

## Findings

| source | as written | input that shows it | evidently intended | confidence | as-written member | corrected member |
|---|---|---|---|---|---|---|
| src/socketeer.php:293-294 | `pack('CCNN', $b1, 127, $length)` gives two `N` fields one value, so `pack` fails and no frame is produced | any payload of 65536 octets | marker 127 followed by the 8-octet big-endian length (section 5.2 of RFC 6455) | not executed | Framing.SealLengthField | Framing.SealIntended |
