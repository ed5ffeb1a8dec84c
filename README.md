# go_gms_server: a Dafny model of the relay core

The server accepts TCP connections from a GameMaker game and relays chat
messages between them. This project models its core, all of which sits in
`main.go`:

- **Wire** (`wire.dfy`). Bytes. The six `NET_*` message tags. The writes a
  `binary.Write` call performs. The little-endian `uint16`. The bytes of a Go
  string built rune by rune from bytes.
- **Codec** (`codec.dfy`). `buffer_get_string` and `buffer_get_number`. Each
  reads the receive buffer and moves a cursor through it.
- **ClientRegistry** (`registry.dfy`). The `clients` map with its capacity
  `max_clients = 8`, and `add_client` / `remove_client` over it. It also has
  traces of connections arriving and sessions ending.
- **Server** (`server.dfy`). `handleMessage` (dispatch on the tag byte),
  `handleConnection` (the per-connection read loop), and the admit-or-kick
  branch of `main`'s accept loop.

Connections are an abstract identity type `C`. A socket read is a
`ReadResult`: the bytes received, or an error. Every `binary.Write` is
recorded as a `Write(to, bytes)` in the order it happens. The registry is a
class whose methods reassign its `map`. `GetString` and `Session` are loops
with invariants. Each is proved against a specification function (`StringAt`
and `Handles`).

Behaviour of the code that the model reproduces and that a reader might not expect:

- When no zero byte comes before the limit, `buffer_get_string` leaves the
  cursor on the last byte it examined (`l - 1`), not at the limit. This is
  because `*index = i` is set before each byte is tested, and only a zero byte
  moves it one further. For the unterminated `[a, b, c]` with limit 3, the
  cursor ends at 2. In a GET_TESTMSG, the number read next then re-reads that
  byte (`Codec.NumberAfterUnterminatedString`).
- A broadcast sends the string bytes with no terminator.
- `string(buff[i])` makes the rune whose code point is the byte, and a Go
  string holds its runes as UTF-8. So a byte of 0x80 or more becomes two bytes
  in the broadcast. The model keeps the string as those bytes (`EncodeRunes`),
  and `DecodeRunes` reads them back.
- Every read goes into a fresh buffer of 1024 zero bytes. With a full read of
  1024 bytes, a GET_TESTMSG whose only zero after the tag is the last byte
  leaves the cursor at 1024. `buf[1024]` then panics, which ends the whole
  process. The model returns this as `panicked`, and the session ends
  `Crashed` (`Server.TestMsgPanicsIff`).
- A full registry refuses every connection, even one that is already in it.
  `add_client` tests the size before anything else.

## Model

| member | source | states |
|---|---|---|
| Wire.Uint16LE | main.go:63 | the two bytes written for a `uint16` are its little-endian encoding: low byte + 256 × high byte gives the number back |
| Wire.AsciiBytes | main.go:33 | `[]byte` of an ASCII literal has one byte per character, equal to its code |
| Wire.RuneBytes | main.go:103 | `string(b)` of a byte is `[b]` below 0x80; otherwise it is a two-byte UTF-8 sequence (lead 0xC2/0xC3, then a continuation byte) that decodes to b |
| Wire.EncodeRunes | main.go:103 | the string is at least as long as its runes and at most twice as long, and exactly as long iff every rune is ASCII |
| Wire.EncodeAppend | main.go:103 | `str += string(b)` appends exactly the bytes of b's rune, so concatenation commutes with encoding |
| Wire.DecodeEncode | main.go:69 | `[]byte(msg)` always decodes back to exactly the runes collected |
| Wire.EncodeNoZero | main.go:99-103 | a string built from non-zero bytes contains no zero byte |
| Wire.EncodeAscii | main.go:103 | ASCII bytes pass through the string unchanged |
| Wire.DecodeRunes | main.go:69 | a decoded rune list is never longer than the bytes it came from |
| Wire.WritesToSnoc | main.go:67-69 | a further write adds its payload to the list of its own connection and to no other |
| Codec.FirstZero | main.go:97-101 | the position found is the first zero byte in `[from, l)`: no zero before it, and a zero at it unless it is `l` |
| Codec.FirstZeroAt | main.go:97-101 | any zero with no zero before it is the terminator the loop stops at |
| Codec.GetString | main.go:94-107 | the loop returns the string and final cursor of `StringAt`; the string holds no zero byte |
| Codec.RuneAppended | main.go:103 | one more loop step appends the rune of the byte examined |
| Codec.StringAtCases | main.go:96-105 | an empty range gives "" and an unchanged cursor; a terminator gives the runes before the first zero and a cursor just past it; no terminator gives all bytes to the limit and a cursor at `l - 1` |
| Codec.NumberAfterUnterminatedString | main.go:59-60 | with no terminator the cursor stays on the string's last byte, so the following number re-reads a byte whose rune ends the string |
| Codec.TerminatedStringRoundTrip | main.go:94-107 | non-zero runes followed by a terminator decode to their string, the cursor lands past the terminator, and the string decodes back to the runes |
| Codec.CursorPastBufferIff | main.go:56-60 | the cursor after the string leaves the 1024-byte buffer iff the read filled it and the only zero after the tag is its last byte |
| Codec.GetNumber | main.go:87-91 | returns the byte under the cursor and advances the cursor by exactly one; needs the cursor inside the buffer |
| ClientRegistry.Admit | main.go:74-80 | admits iff the registry has fewer than 8 entries; an admitted connection maps to 0 and every other entry stays; a refusal changes nothing; the bound of 8 is kept |
| ClientRegistry.Deregister | main.go:82-84 | the connection is gone, every other entry is unchanged, and the size does not grow |
| ClientRegistry.DeregisterAbsent | main.go:82-84 | removing a connection that is not registered changes nothing |
| ClientRegistry.DeregisterIdempotent | main.go:82-84 | removing twice equals removing once |
| ClientRegistry.Registry.constructor | main.go:11 | the registry starts empty |
| ClientRegistry.Registry.Add | main.go:74-80 | `add_client` updates `clients` as `Admit` says and returns whether it admitted; the size bound is preserved |
| ClientRegistry.Registry.Remove | main.go:82-84 | `remove_client` updates `clients` as `Deregister` says and is logged as one removal |
| ClientRegistry.AdmitFresh | main.go:74-80 | a new connection admitted with room grows the registry by one |
| ClientRegistry.RunBounded | main.go:74-84 | whatever sequence of arrivals and removals happens, the registry never holds more than 8 connections |
| ClientRegistry.FreshArrivalsAdmitted | main.go:74-80 | distinct new connections arriving while there is room are all admitted, and each adds exactly itself |
| ClientRegistry.FullRegistryRefuses | main.go:29-35 | after 8 distinct admissions with no one gone, the next connection, whoever it is, is refused |
| Server.BroadcastWrites | main.go:67-70 | a broadcast over n connections performs exactly 2n writes |
| Server.Dispatch | main.go:55-72 | `handleMessage` performs exactly the writes (and the panic) that `Handles` gives for its tag, and only reads the registry |
| Server.BroadcastReachesEach | main.go:67-70 | along an enumeration of the keys, each listed connection gets exactly the tag write and then the string write, and any other connection gets nothing |
| Server.EnumerationSize | main.go:67 | a `range` over the map visits as many connections as it holds |
| Server.BroadcastFanOut | main.go:64-70 | GET_MSG sends every registered connection, sender included, exactly `[[BROADCAST_MSG], string]` and no one else anything, with 2 × size writes and no panic |
| Server.ChatRelayed | main.go:64-70 | a terminated chat text reaches every registered connection as the tag and then bytes that decode to that text, unchanged when it is ASCII |
| Server.RequestNumAnswered | main.go:61-63 | GET_REQUESTNUM writes only to the sender: `[2]`, then `[0x26, 0x4B]` (19238 little-endian) |
| Server.TestMsgPanicsIff | main.go:58-60 | GET_TESTMSG writes nothing, and panics iff a full read has its only zero after the tag in the last byte |
| Server.UnknownTagIgnored | main.go:57-71 | a tag matching no case performs no write and does not panic |
| Server.FirstFailure | main.go:44-49 | gives the first failed read: every read before it succeeded, and the read at it failed |
| Server.Filled | main.go:43-44 | the receive buffer holds the bytes read followed by zeros, 1024 bytes in all |
| Server.ReceiveBuffer | main.go:43-44 | a fresh 1024-byte buffer holds the bytes read, then zeros |
| Server.Session | main.go:41-52 | each read before the first failure is dispatched with its own length; at the first failure the connection is removed exactly once and nothing later is read; a panic stops the session with the registry untouched |
| Server.KickWrites | main.go:32-33 | a refused connection receives SEND_KICK and then "Full Server", and no one else receives anything |
| Server.Accept | main.go:29-35 | a connection is admitted as `Admit` says with no write, or it is refused and sent the kick; `admitted` is false then, so the caller starts no session |
| Server.KickAll | main.go:32-33 | kicking n connections takes exactly 2n writes; what each connection receives is stated by `Server.KickAllReachesEach` |
| Server.KickAllReachesEach | main.go:29-35 | across the accept loop, each connection receives one SEND_KICK and "Full Server" pair per time it was refused, in that order, and a connection never refused receives nothing |
| Server.KickAllDistinct | main.go:29-35 | when no connection is refused twice, each refused connection receives exactly SEND_KICK then "Full Server", and every other connection nothing |
| Server.DistinctOnce | main.go:29-35 | a connection occurs at most once in a list of refusals without repeats |
| Server.Serve | main.go:22-36 | the accept loop, with sessions ending in between, leaves the registry as `Run` says, refuses exactly the connections `Run` refuses, sends each connection one SEND_KICK and "Full Server" pair per refusal and nothing else, and logs one `remove_client` per session end, in order |
| Server.Apply | main.go:29-35 | one event of the loop: an arrival is admitted or kicked, a session end removes its connection; the new registry and the refusal follow `Step`, and the removal log gains exactly the connection of a session end |
| Server.ServedStep | main.go:22-36 | applying one more event keeps the loop's state equal to `Run`, `KickAll` and `Leaves` over the longer prefix |
| Server.LeavesStep | main.go:47-50 | the removal log grows by exactly the connection of a session-end event and by nothing for an arrival |
| Server.BroadcastSnoc | main.go:67-70 | visiting one more connection adds the tag write and then the string write to its own list and to no other |
| Server.KickAllSnoc | main.go:32-33 | kicking one more connection adds SEND_KICK and then "Full Server" to its own list and to no other |

## Left out

- Socket I/O is abstract: `net.Listen`, `Accept`, `conn.Read`, `conn.Write` and `conn.LocalAddr`. A read is a value handed to the session. A write is a recorded `Write`.
- Errors from `binary.Write` are ignored in the code. The model records every write as delivered, so a failed write to one peer affects nothing else in a broadcast.
- An `Accept` error in `main` leaves `conn` nil, and the next line would then fail. This path is not modelled.
- The goroutine per connection and the unsynchronised sharing of `clients` are not modelled. The registry has a single owner, and each operation runs to completion.
- A panic stops the process and every other session with it. The model only marks the panicking session `Crashed`.
- The `fmt.Print`/`Println` diagnostics are logging and are not modelled. Apart from them, GET_TESTMSG only moves the cursor, except for the panic of `Server.TestMsgPanicsIff` when a full read has its only zero after the tag in its last byte.
- The values of the `NET_*` tags are defined in a file that is not part of this model. They are parameters (`Wire.Tags`). `Tags.Valid` records that the three GET_* tags differ (the `switch` would not compile otherwise) and that SEND_REQUESTED_NUM is 2. The tags are taken to be typed 8-bit constants, as the comment in `main.go` says.
- Codec.GetString: requires the limit to lie within the buffer when the range is not empty. With a limit past the end, Go panics unless a zero byte comes first. Its only caller passes the read length, which never exceeds the buffer.
- Codec.GetString and Codec.GetNumber: the cursor `*index` is passed in and returned rather than updated through a pointer. The caller's `index` is a local variable that nothing else aliases.
- Server.Session: runs over a finite trace of reads. When the trace ends with no failure, the session is reported as still `Waiting`.
- The value stored per client is always 0. Nothing reads it.
