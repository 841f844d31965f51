# DHT message helpers — a Dafny model

This project models the helper layer of a Kademlia-style DHT's protocol messages
(package `dht_pb`, file `pb/message.go`). It covers the following:

- **Building a message.** `NewMessage` sets the type, the key and the cluster level.
- **The cluster-level field.** `GetClusterLevel` and `SetClusterLevel` are meant to apply a
  +1 bias, so that a stored 0 means "unset".
- **Connectivity.** `ConnectionType` and `Connectedness` translate between a peer's
  connectivity state (`inet.Connectedness`) and its wire enum (`Message_ConnectionType`).
- **Peers to the wire.** `peerToPBPeer`, `RawPeersToPBPeers` and `PeersToPBPeers` turn live
  peers into wire peer descriptors (`Message_Peer`).
- **The wire to peers.** `Message_Peer.Addresses`, `PBPeerToPeer` and `PBPeersToPeers` turn
  descriptors back into peers. Along the way they register each peer and its addresses in
  the peerstore. The model's batch conversion isolates failures: one bad descriptor fills
  its own error slot and never fails the batch. The code as written does this for every
  non-nil descriptor, but a nil descriptor whose empty id the store accepts panics and
  loses the whole batch (Finding 3).

Everything is written as pure functions over immutable datatypes:

- The peerstore is a map from identity to a set of addresses. It is threaded through the
  decoders.
- A nil descriptor pointer is `Option.None`.
- Go's `int32` and `int` are newtypes. Their wrap-around is written out (`GoInts.ToInt32`).

| file | module | models |
|---|---|---|
| `wrappers.dfy` | `Wrappers` | `Option` (nil pointers, unset fields) and `Result` (Go's `(T, error)`) |
| `go_ints.dfy` | `GoInts` | `int32`, `int64`, and Go's truncating `int32(x)` conversion and int32 overflow |
| `multiaddr.dfy` | `Multiaddr` | an opaque multiaddress, plus the types of its parser and printer |
| `net.dfy` | `Net` | `inet.Connectedness` |
| `peer.dfy` | `Peer` | peer identities, peer handles, and the peerstore's `FindOrCreate` and `AddAddress` |
| `dht_pb.dfy` | `DhtPb` | everything in `pb/message.go` that is modelled |
| `dht_pb_properties.dfy` | `DhtPbProperties` | lemmas relating several helpers |
| `dht_pb_findings.dfy` | `DhtPbFindings` | the discrepancies listed under Findings: as-written and corrected halves |

The message helpers call three things this model cannot see. Each becomes a parameter:

- **The multiaddress parser** (`ma.NewMultiaddr`) becomes `parse: string -> Option<Multiaddr>`.
- **The multiaddress printer** (`Multiaddr.String`) becomes `show: Multiaddr -> string`.
  Nothing assumes that `parse` and `show` are inverses. The round-trip lemmas take that as
  an explicit hypothesis, and only for the addresses involved.
- **The network's connectivity** (`inet.Network.Connectedness`) becomes
  `net: Peer -> Connectedness`.

The peerstore's own failure (`FindOrCreate` returning an error) is the parameter
`refuses: ID -> bool`. It names the identities for which the store fails.

The generated protobuf file is not part of this model. `Message` and `Message_Peer` are
records with optional fields. The generated getters behave as follows:

- `GetId` returns "" for a nil descriptor or an unset id.
- `GetClusterLevelRaw` returns 0 for an unset field.

Each enum (the message type, the wire connection type and the connectivity state) has an
extra constructor for a value outside the named ones, so `NewMessage` accepts any message
type code, as the Go function does. Its field is an
opaque tag that tells such values apart; it is not the numeric code, so that constructor
never coincides with a named value.

Where the code's own comments and checks promise more than the code does, the model
follows the code for the cluster level, and models both behaviours for a nil descriptor:

- **Cluster level.** The comments on `GetClusterLevel` and `SetClusterLevel`
  (pb/message.go:112-114 and 123-125) say both apply a ±1 adjustment, so that level 0 can
  be told apart from an unset field. The getter subtracts 1, but the setter stores the
  level without adding 1 (Finding 1).
- **Partial failure.** The comment on `PBPeersToPeers` (pb/message.go:77-80) says its error
  slice records, for each input descriptor, whether it converted, and `Addresses` checks for
  a nil descriptor (pb/message.go:97-98). Yet `PBPeerToPeer` then reads the nil
  descriptor's addresses to format its error, so a nil descriptor whose empty id the store
  accepts panics the whole batch (Finding 3). Here `DhtPb.PBPeerToPeer` and
  `DhtPb.PBPeersToPeers` are the corrected conversions: they report a nil descriptor as
  that entry's error. `DhtPbFindings.PBPeerToPeerAsWritten` and
  `DhtPbFindings.PBPeersToPeersAsWritten` are the code's behaviour, panic included, and
  each is proved equal to its corrected counterpart whenever it does not panic.
- **Setter and getter.** `SetClusterLevel` and `GetClusterLevel` themselves are modelled as
  written, and `NewMessage` uses them as written. The corrected pair lives only in
  `DhtPbFindings`.

## Model

| member | source | states |
|---|---|---|
| DhtPb.NewMessage | pb/message.go:13-21 | the message has exactly the given type and key, no value and no closer peers, and as raw cluster level the 32-bit truncation of the level |
| DhtPb.SetClusterLevel | pb/message.go:123-129 | the raw field becomes the level's 32-bit truncation, with no +1 bias (a level within int32 range is stored unchanged); no other field changes |
| DhtPb.GetClusterLevel | pb/message.go:112-121 | the result is never negative: raw−1 for raw ≥ 1, 0 for an unset field and for raw in (−2^31, 0], and 2^31−1 for raw = −2^31 because the int32 decrement wraps |
| GoInts.ToInt32 | pb/message.go:127 | Go's `int32(x)`: the result is congruent to x modulo 2^32, and equals x when x fits in an int32 |
| DhtPb.ConnectionType | pb/message.go:140-155 | every named connectivity state maps to its namesake wire value; every other value maps to NOT_CONNECTED; the result is always a named value |
| DhtPb.Connectedness | pb/message.go:157-172 | every named wire value maps to its namesake connectivity state; every other code maps to NotConnected; the result is always a named state |
| DhtPb.ParseAll | pb/message.go:101-109 | succeeds exactly when every address parses; then the result has the same length and order, with element i the parse of address i; otherwise the error names the first address that does not parse |
| DhtPb.Addresses | pb/message.go:95-110 | a nil descriptor is an error; any unparsable address fails the whole call with no list; on success the list matches `Addrs` element by element, in order |
| DhtPb.PBPeerToPeer | pb/message.go:36-52 | the conversion succeeds exactly when the store accepts the id and every address parses, returning that id; a refused id leaves the store unchanged; otherwise the record is created first and survives an address failure, which adds no address; on success the record gains exactly the parsed addresses; other records are untouched and the store only grows |
| DhtPb.PBPeersToPeers | pb/message.go:77-93 | one error slot per input; slot i is empty exactly when entry i converts, and otherwise holds that entry's error; the peers are exactly the converted entries' ids in input order; peers plus errors add up to the input length |
| DhtPb.PBPeersToPeersGrows | pb/message.go:81-93 | a batch conversion never removes a record or an address from the peerstore |
| DhtPb.PBPeersToPeersRecords | pb/message.go:84-85 | afterwards the store holds records for exactly its old identities plus every batch identity it accepted, including those whose addresses failed |
| DhtPb.PBPeersToPeersAddsAddresses | pb/message.go:44-50 | every entry that converts has all its parsed addresses recorded under its id after the whole batch |
| DhtPb.PBPeersToPeersUntouched | pb/message.go:81-93 | the record of every identity the batch does not name is unchanged |
| DhtPb.PBPeersToPeersRecordContents | pb/message.go:44-50 | after a batch, each identity's record holds exactly its old addresses plus the parsed addresses of the converting entries that name it: a failing entry adds nothing, and no address comes from anywhere else |
| DhtPb.NoConversionAddsNothing | pb/message.go:84-87 | a batch in which no entry converts leaves every record's addresses as they were |
| DhtPb.EmptyAddressListAccepted | pb/message.go:101-109 | a descriptor with no addresses parses to an empty list, and converts exactly when the store accepts its id |
| DhtPb.PeerToPBPeer | pb/message.go:23-34 | the descriptor carries the peer's id and the text of each of its addresses in order, with the connection unset |
| DhtPb.RawPeersToPBPeers | pb/message.go:54-62 | one non-nil descriptor per peer, in order, with entry i carrying peer i's id and address texts and no connection |
| DhtPb.PeersToPBPeers | pb/message.go:64-75 | one descriptor per peer; entry i's connection is the named wire value that mirrors the network's connectivity to peer i (NOT_CONNECTED for an unnamed state); clearing that field gives back `RawPeersToPBPeers`' entry exactly |
| Peer.FindOrCreate | pb/message.go:38-41 | fails exactly for refused identities; otherwise the store gains a record for the id (empty if new, unchanged if present) and nothing else changes |
| Peer.AddAddresses | pb/message.go:48-50 | the id's record gains exactly the given addresses; no other record and no key changes |
| DhtPbProperties.SetThenGet | pb/message.go:115-129 | for 0 ≤ n < 2^31, setting level n and reading it back gives max(n−1, 0), not n |
| DhtPbProperties.SetThenGetNegative | pb/message.go:115-129 | negative int32 levels read back as 0, except −2^31, which reads back as 2^31−1 |
| DhtPbProperties.LevelsZeroAndOneCollide | pb/message.go:123-129 | levels 0 and 1 are stored differently but both read back as 0 |
| DhtPbProperties.NewMessageLevel | pb/message.go:14-21 | a new message built with level n reports max(n−1, 0), and it equals the level-0 message with level n set |
| DhtPbProperties.ConnectionTypeInverse | pb/message.go:142-172 | `Connectedness` inverts `ConnectionType` on the four named states |
| DhtPbProperties.ConnectednessInverse | pb/message.go:142-172 | `ConnectionType` inverts `Connectedness` on the four named wire values |
| DhtPbProperties.UnknownIsNotConnected | pb/message.go:142-172 | both mappings send every unnamed value to "not connected", and only the unnamed values and "not connected" itself map there |
| DhtPbProperties.AddressesOfPeer | pb/message.go:96-110 | when the parser reads back what the printer writes, parsing a peer's own descriptor yields exactly the peer's addresses, in order |
| DhtPbProperties.PeerRoundTrip | pb/message.go:23-52 | a peer written to the wire and converted back yields its own id, and its record gains all its addresses |
| DhtPbProperties.BatchRoundTrip | pb/message.go:64-93 | peers written with `PeersToPBPeers` and read back with `PBPeersToPeers` give no errors, the same ids in the same order |
| DhtPbProperties.BatchRoundTripRecords | pb/message.go:64-93 | after that round trip every address of every peer is recorded under the peer's id |
| DhtPbProperties.SingleBadEntry | pb/message.go:77-93 | with exactly one failing entry, that entry's slot holds its error, it is the only error, and every other entry comes back, so there is one fewer peer than inputs |
| DhtPbProperties.SevenEntriesOneMalformed | pb/message.go:77-93 | seven descriptors, one with a malformed address, give six peers and one error in the malformed entry's slot |
| DhtPbFindings.SetThenGetLosesLevel | pb/message.go:123-129 | as written, level 1 reads back as 0, so set-then-get does not return the level |
| DhtPbFindings.SetClusterLevelBiased | pb/message.go:123-125 | the setter the comment describes: it stores level+1 (truncated to 32 bits) and changes no other field |
| DhtPbFindings.SmallestRawWraps | pb/message.go:115-120 | as written, raw −2^31 reads as 2^31−1 while raw −1 reads as 0 |
| DhtPbFindings.GetClusterLevelClamped | pb/message.go:112-120 | the intended getter: 0 for every non-positive or unset raw value, raw−1 otherwise |
| DhtPbFindings.BiasedRoundTrip | pb/message.go:112-129 | with the biased setter and the clamped getter, every level 0 ≤ n < 2^31−1 reads back as n, and no level is stored as "unset" |
| DhtPbFindings.PBPeerToPeerAsWritten | pb/message.go:44-47 | as written, the conversion panics exactly for a nil descriptor whose empty id the store accepts, after creating the "" record; otherwise it agrees with `PBPeerToPeer` |
| DhtPbFindings.PBPeersToPeersAsWritten | pb/message.go:81-93 | as written, the batch panics exactly when it contains a nil entry and the store accepts ""; a panic leaves the shared store holding a "" record and everything it held before; otherwise it equals `PBPeersToPeers` |
| DhtPbFindings.NilEntryPoisonsBatch | pb/message.go:84-90 | one nil entry beside a good one: the code as written panics, leaving the good peer's record in the store, while the corrected batch keeps the good peer and reports the nil entry in its slot |

## Left out

- `Loggable` (pb/message.go:131-138): it only builds logging output.
- Wire marshalling and the generated protobuf types are not part of this model. Messages
  are records whose fields follow the wire schema: type, key, value, closer peers and the
  raw cluster level.
- Multiaddress parsing and printing belong to a foreign library. They are the parameters
  `parse` and `show`, and the model assumes nothing about them.
- `Addresses`: the model represents the parser's error by the text of the address that
  failed, because the library's error value is not visible.
- `Peer.FindOrCreate`: when the real peerstore fails is not visible, so the parameter
  `refuses` stands for it. That oracle depends on the identity alone, not on what the store
  holds; the code promises no such thing. The store's own error value, which the code wraps
  in its message (pb/message.go:40), is replaced by `PeerstoreFailure(id)`, which carries
  only the identity. The peerstore's locking and concurrency safety are out of scope.
- `Peer.AddAddresses`: a peer's addresses are a set in the store. The order and
  deduplication inside `AddAddress` are not visible and are not modelled.
- `inet.Network`: it is the parameter `net`, a function from a peer to its connectivity.
- Go's `int` is modelled as 64 bits wide. Platforms with a 32-bit `int` are not modelled.
- Passing a nil `peer.Peer` to `RawPeersToPBPeers` or `PeersToPBPeers` would panic in Go.
  Peers in the model are values, never nil, so that case is not modelled.
- An empty address list: the code accepts it (the parse loop simply does not run) and
  converts the descriptor with no addresses, although the error text speaks of "bad or
  missing addresses". The model does the same (`DhtPb.EmptyAddressListAccepted`).
- `ext_test.go` is not modelled. Its scenarios exercise the query engine and the request
  handler, and those are not part of this model. They also depend on wall-clock timeouts
  and concurrent RPC dispatch.

## Findings

| source | as written | input that shows it | evidently intended | confidence | as-written member | corrected member |
|---|---|---|---|---|---|---|
| pb/message.go:123-129 | `SetClusterLevel` stores `int32(level)` with no +1 bias, although its comment and `GetClusterLevel`'s −1 expect one | `SetClusterLevel(1)` then `GetClusterLevel()` gives 0, and level 0 gives 0 too | store level+1, so that set-then-get returns the level | high; not executed | DhtPbFindings.SetThenGetLosesLevel | DhtPbFindings.SetClusterLevelBiased |
| pb/message.go:115-120 | `GetClusterLevelRaw() - 1` is int32 arithmetic and wraps | raw value −2147483648 from the wire gives level 2147483647 | clamp every non-positive raw value to level 0 | medium; not executed | DhtPbFindings.SmallestRawWraps | DhtPbFindings.GetClusterLevelClamped |
| pb/message.go:44-47 | after `Addresses` rejects a nil descriptor, the error message reads `pbp.Addrs` through the nil pointer | a nil entry in the slice given to `PBPeersToPeers`, with a store that accepts the empty id, panics, so the whole batch is lost | report the nil descriptor as that entry's error | medium; not executed | DhtPbFindings.PBPeerToPeerAsWritten | DhtPb.PBPeerToPeer |

For the first two rows, `DhtPbFindings.BiasedRoundTrip` proves the intended property of
the corrected pair: every level from 0 to 2^31−2 round-trips exactly. For the third row,
`DhtPb.PBPeersToPeers` uses the corrected conversion, and its contract states the
partial-failure isolation. `DhtPbFindings.NilEntryPoisonsBatch` shows both behaviours on
one input.
