# WebSocket upgrade and in-memory user store, in Dafny

This project models two sequential pieces of a Go HTTP server and proves
properties of them.

- **The WebSocket upgrade** (`websocket/main.go`). `UpgradeToWebSocket` checks an
  HTTP request in a fixed order: method, `Upgrade`, `Connection`, version, key.
  The first failing check decides the error. Only a request that passes all five
  has its connection hijacked and receives a `101 Switching Protocols` response.
  That response carries the accept key computed by `computAcceptKey`.
  Supporting modules model what the check relies on:
  - `HttpHeader` models Go's header canonicalisation and `Header.Get`.
  - `Base32` models `base32.StdEncoding`.
- **The user repository** (`intermediate/main.go`). `InMemoryStore` is a map
  from ID to user plus a `nextID` counter. The model has `NewInMemoryStore`
  (the code's constructor is spelled `NewInMemorySore`), `Create`, `GetByID`,
  `GetAll`, `Update` and `Delete`, and an invariant that every operation
  preserves.

Files: `wrappers.dfy` (`Result`, `Option`), `http_header.dfy`, `base32.dfy`,
`websocket.dfy`, `user_store.dfy`.

## Where the code departs from RFC 6455

The model follows the code, not section 4.2.2 of RFC 6455, in these places:

- The version is read under the misspelled name `Sec-Websocket-Vesion`
  (websocket/main.go:45). `Header.Get` ignores case but not spelling. So a
  request that carries only the correct `Sec-WebSocket-Version: 13` is always
  rejected with "websocket version must be 13". `CompliantRequestRejected` and
  `VersionReadOnlyUnderMisspelledName` prove this.
- The accept key is the base 32 encoding of the SHA-1 digest, not its base 64
  encoding (websocket/main.go:90). It is 32 characters from `A-Z2-7` with no
  padding.
- `Upgrade` must equal `websocket` exactly, so the comparison is case-sensitive.
- `Connection` only has to contain the substring `Upgrade`. There is no
  comma-separated token parsing and no case folding.
- The key is only checked to be non-empty. It is not base64-decoded and its
  length is not checked.
- There is no frame codec, masking, fragmentation or close handling in the code.
  The opcode constants are declared but never used.

## Model

| member | source | states |
|---|---|---|
| WebSocket.Validate | websocket/main.go:32-53 | The checks run in the order method GET, `Upgrade == "websocket"`, `Connection` contains `Upgrade`, `Sec-Websocket-Vesion == "13"`, `Sec-WebSocket-Key` non-empty. The first one that fails decides the error. A request is accepted exactly when all five pass, and the result is the key value. |
| WebSocket.UpgradeToWebSocket | websocket/main.go:32-83 | A rejected request returns the validation error, hijacks nothing and writes nothing. Success happens exactly when validation passes and hijack, write and flush all succeed. Success returns an open `Websocket` (`closed = false`) on the hijacked connection, after sending the response built from the accept key. Nothing is sent unless the connection was hijacked. A hijacked connection that then fails is closed. |
| WebSocket.VersionReadOnlyUnderMisspelledName | websocket/main.go:45-48 | If no request header line has a name equal to `Sec-Websocket-Vesion` up to case, the request is never accepted, whatever its `Sec-WebSocket-Version` line says. |
| WebSocket.CompliantRequestRejected | websocket/main.go:45-48 | The handshake from section 1.3 of RFC 6455 (GET, `Upgrade: websocket`, `Connection: Upgrade`, `Sec-WebSocket-Version: 13`, a key) is rejected with the version error. |
| WebSocket.MisspelledVersionAccepted | websocket/main.go:45-54 | The same handshake plus `Sec-Websocket-Vesion: 13` is accepted, and the result is its key. |
| WebSocket.ContainsIffOccurs | websocket/main.go:41 | `strings.Contains(s, sub)` holds exactly when `sub` occurs at some position of `s`. |
| WebSocket.ConnectionTokenListPasses | websocket/main.go:41-43 | `keep-alive, Upgrade` passes the `Connection` test. |
| WebSocket.ConnectionInsideWordPasses | websocket/main.go:41-43 | `NoUpgrades` passes as well: the test looks for a substring, not a token. |
| WebSocket.ConnectionLowerCaseFails | websocket/main.go:41-43 | `upgrade` fails: the test is case-sensitive. |
| WebSocket.AcceptKey | websocket/main.go:86-91 | The accept key is 32 characters from `A-Z2-7` with no padding. It decodes back to the SHA-1 digest of the key followed by `258EAFA5-E914-47DA-95CA-C5AB0DC85B11`. |
| WebSocket.ResponseDependsOnlyOnKey | websocket/main.go:50-72 | Two accepted requests with the same key get the same response text, whatever their other headers are. |
| WebSocket.ResponseLines | websocket/main.go:66-72 | Split at CRLF, the response is `HTTP/1.1 101 Switching Protocols`, `Upgrade: websocket`, `Connection: Upgrade`, `Sec-WebSocket-Accept: <key>`, then an empty line. |
| WebSocket.SentResponseShape | websocket/main.go:54-73 | The text sent on success has exactly those lines, and its accept value decodes to the digest of the key plus the GUID. |
| WebSocket.OpcodeOf | websocket/main.go:22-29 | Decoding an opcode value gives back an opcode with that value. |
| WebSocket.OpcodeCodes | websocket/main.go:22-29 | Each opcode is recovered from its value. Exactly 0x0, 0x1, 0x2, 0x8, 0x9 and 0xA are recognised. |
| HttpHeader.CanonicalKey | websocket/main.go:45 | `Header.Get` canonicalises the name. The result equals the name up to case. For a token name the result is in canonical form. Any other name comes back unchanged. |
| HttpHeader.SameKeyIffEqualFold | websocket/main.go:45 | Two token names select the same header entry exactly when they are equal up to ASCII case. So a spelling difference is never bridged. |
| HttpHeader.CanonicalKeyIdempotent | websocket/main.go:45 | Canonicalising twice gives the same result as canonicalising once. |
| HttpHeader.FromLinesCollects | websocket/main.go:38-50 | The header map built from the request lines holds, under each canonical name, exactly the values of the lines with that name, in order. |
| HttpHeader.GetFromLines | websocket/main.go:50-51 | `Header.Get` returns the value of the first line whose name canonicalises to the requested name, or "" when there is no such line. |
| Base32.Encode | websocket/main.go:90 | The output length is Go's `EncodedLen`, `(n + 4) / 5 * 8`. Every character is an alphabet symbol or `=`. |
| Base32.DecodeEncode | websocket/main.go:90 | Decoding the encoding of any byte string gives that byte string back. |
| Base32.EncodeKnownAnswer | websocket/main.go:90 | The one-byte string `f` encodes to `MY======`, the first test vector of section 10 of RFC 4648. |
| Base32.DigestEncoding | websocket/main.go:88-90 | A 20-byte digest encodes to exactly 32 alphabet symbols and no padding. |
| UserStore.NewInMemoryStore | intermediate/main.go:62-67 | A new store has no users, has `nextID = 1`, and satisfies the invariant. |
| UserStore.Create | intermediate/main.go:69-82 | `Create` never fails. The new user has ID and key equal to the old `nextID`, plus the given names and time. Other users are unchanged. `nextID` grows by exactly 1. On an invariant-satisfying store the key is fresh, the user count grows by 1, and the invariant is kept while `nextID` is below the 64-bit maximum. |
| UserStore.Inc | intermediate/main.go:80 | `nextID++` on a 64-bit `int` follows Go's two's-complement rule: the result is the 64-bit value congruent to `nextID + 1` modulo 2^64. |
| UserStore.GetByID | intermediate/main.go:84-93 | `GetByID` returns the stored user exactly when the ID is a key. Otherwise it returns "user not found". |
| UserStore.GetByIDAfterMutations | intermediate/main.go:69-129 | Seen through `GetByID`, a created user is found under its new ID, an updated user is found with its new names, and a deleted ID is no longer found. |
| UserStore.GetAll | intermediate/main.go:95-104 | `GetAll` returns as many users as there are entries. Each entry's user appears once, read from a distinct key. Every key is covered. The order is whatever the map iteration picks. |
| UserStore.GetAllDistinctIds | intermediate/main.go:95-104 | Under the invariant, the users returned by `GetAll` have pairwise different IDs. |
| UserStore.Update | intermediate/main.go:106-117 | A missing ID gives "user not found" and the store is unchanged. For a present ID, only that user's username and email change. Its ID and creation time stay. Other users, the key set and `nextID` are untouched. The invariant is kept. |
| UserStore.Delete | intermediate/main.go:119-129 | A missing ID gives "user not found" and the store is unchanged. For a present ID, exactly that key is removed. Other users and `nextID` are unchanged. The invariant is kept. |
| UserStore.RunKeepsIdsFresh | intermediate/main.go:74-80 | Take any sequence of calls that keeps `nextID` within range. The invariant holds after it, and `nextID` has grown by the number of creates. The IDs handed out are strictly increasing and lie between the old and new `nextID`. So no ID is handed out twice. |
| UserStore.DeletedIdNotReused | intermediate/main.go:119-129 | A `Create` after a `Delete` never hands out the deleted ID again. |
| UserStore.CreateWrapsAtMaxInt | intermediate/main.go:80 | At the top of the 64-bit range, `nextID++` wraps to the most negative `int`. |

## Left out

- Hijacking, buffered writing, flushing and `conn.Close` are I/O on `net.Conn`. `UpgradeToWebSocket` takes how each step ends as a `Transport` parameter and records the effects: hijacked, text handed to the writer, connection closed. It does not model partial writes.
- SHA-1 (`crypto/sha1`) is foreign code. It is the parameter `sha1`, a function from the (byte) string to a 20-byte digest. Go strings are byte strings, and the model uses Dafny strings for them.
- The test vector `s3pPLMBiTxaQ9kYGzzhZRbK+xOo=` from section 1.3 of RFC 6455 is not stated. It is base 64, which the code does not produce, and SHA-1 is not modelled.
- `Base32.Decode` is the inverse that the encoding is checked against. It is not a model of Go's `DecodeString`, which also skips newlines and reports error offsets. The code never decodes.
- The net/http request reader is modelled only as far as `Header.Get` depends on it. Names are canonicalised, values are appended in order, and a line whose name is empty or holds a non-token character is refused. Value trimming and the rest of request parsing are left out.
- The `sync.Mutex` of `Websocket` and the `sync.RWMutex` of `InMemoryStore` only serialise calls. The operations are modelled one after another.
- Pointer aliasing of `*User` is left out. `Update` changes the user in place, so pointers returned earlier see the new names. The model returns user values instead.
- `time.Now()` in `Create` is the parameter `now`.
- UserStore.Create: the invariant is proved kept only while `nextID` is below 2^63 - 1. At that value Go's `nextID++` wraps to -2^63 (`CreateWrapsAtMaxInt`). After that, IDs would be negative and could eventually repeat. No realistic run reaches it.
- UserStore.RunKeepsIdsFresh: stated for runs whose creates keep `nextID` within the 64-bit range, for the same reason.
- JSON helpers, HTTP handlers and middleware in intermediate/main.go are thin wrappers over `encoding/json`, `net/http` and `slog`.
- basics/main.go, advance/main.go and patterns/ are out of scope. They hold routing demos, Postgres access, signal handling, and goroutine or network patterns, and none of them is part of this model.
