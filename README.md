# In-memory KeyBook of a thread store

This project models the in-memory key book of a peer-to-peer thread store (`memoryKeyBook`). For every (thread, peer) pair the book holds at most one public key, one private key, one read key and one follow key. Each kind lives in its own two-level map, thread -> peer -> key (`pks`, `sks`, `rks`, `fks`).

Writes are checked before anything changes:
- a public key must match the peer;
- a private key must be non-nil and match the peer;
- a read or follow key must be non-nil.

A rejected write returns an error and leaves all four maps as they were. An accepted write creates the thread's inner map if it is missing, then stores the key, replacing any earlier one. Lookups return "absent" (`None`) for a missing thread or peer and never fail.

Two queries work by iteration:
- `LogsWithKeys(t)` lists the peers under `t` that hold a public or private key.
- `ThreadsFromKeys()` lists the threads in the public- or private-key maps.

`LogPubKey` falls back to extracting the key from the peer identifier when no public key is stored, and caches the key when extraction succeeds.

Files:
- `wrappers.dfy`: `Option` (Go's `nil`-or-value) and `Outcome` (a returned `error`).
- `identity.dfy`: thread and peer identifiers, key material, and `Checks`. `Checks` holds the identity library's three checks (`MatchesPublicKey`, `MatchesPrivateKey`, `ExtractPublicKey`) as function values. They are not implemented: any functions may be supplied.
- `tstoremem.dfy`: module `TStoreMem`, with the following parts:
  - the two-level map operations (`GetKey`, `Put`) and their lemmas;
  - the set loops the queries use;
  - the class `MemoryKeyBook`.

  The class has the four map fields and a `Valid()` invariant. The invariant says no inner map is empty. It also says every stored public key was either verified against its peer or extracted from it, and every stored private key matches its peer.

Every method is modelled as one atomic step. The reader/writer lock only serialises calls.

Only a nil read or follow key is rejected (`key == nil`, tstoremem/keybook.go:164 and :185); an empty one is stored like any other. So the model takes `Option<Bytes>`, rejects `None`, and stores `Some([])`. Read and follow keys also take no part in the two queries: a thread that holds only read or follow keys is not listed by `ThreadsFromKeys`, which iterates over `pks` and `sks` only (tstoremem/keybook.go:82-87).

## Model

| member | source | states |
|---|---|---|
| `TStoreMem.Message` | tstoremem/keybook.go:118-186 | records the texts of the five errors the writers return (lines 118, 139, 144, 165, 186); no contract of its own—its property is `MessagesDistinct` |
| `TStoreMem.MessagesDistinct` | tstoremem/keybook.go:118-186 | the five error texts are pairwise distinct, so the text alone tells which check rejected a write |
| `TStoreMem.GetKey` | tstoremem/keybook.go:40-47 | lookup in a two-level map, used for `LogReadKey`/`LogFollowKey` (lines 158, 179): a result exactly when both the thread and the peer are present, and then the stored key; otherwise `None`, never a failure |
| `TStoreMem.Put` | tstoremem/keybook.go:122-125 | a write that creates the inner map lazily adds only `t` to the thread domain |
| `TStoreMem.PutFrame` | tstoremem/keybook.go:121-126 | frame condition of a write: (t, p) now yields the new key, and every other (thread, peer) lookup is unchanged |
| `TStoreMem.PutKeepsNonEmpty` | tstoremem/keybook.go:122-125 | an inner map is created only right before an insert, so a write never leaves an empty inner map |
| `TStoreMem.PutKeepsPubKeysBound` | tstoremem/keybook.go:115-128 | storing a public key that matches its peer (or was extracted from it) keeps every stored public key bound to its peer |
| `TStoreMem.PutKeepsPrivKeysBound` | tstoremem/keybook.go:137-154 | storing a private key that matches its peer keeps every stored private key matching its peer |
| `TStoreMem.PutOverwrites` | tstoremem/keybook.go:121-126 | overwrite-on-repeat: writing twice to the same entry equals writing only the second value |
| `TStoreMem.PresentThreadHoldsKey` | tstoremem/keybook.go:106-109 | with no empty inner maps, a thread is present in a map exactly when some peer under it has a key |
| `TStoreMem.KeyedPeers` | tstoremem/keybook.go:60-70 | a peer is in the set exactly when it has a public or a private key under `t`; read and follow keys do not contribute |
| `TStoreMem.KeyedThreadsHoldKeys` | tstoremem/keybook.go:79-94 | under the non-empty invariant, a thread is in `dom(pks) ∪ dom(sks)` exactly when some peer under it holds a public or private key |
| `TStoreMem.PeersUnderAfterPut` | tstoremem/keybook.go:121-126 | a write for (t, p) adds exactly `p` to the peers of `t` in that map, and changes no other thread's peers |
| `TStoreMem.KeyedPeersAfterPut` | tstoremem/keybook.go:58-77 | after storing a public or a private key for (t, p), the peers with keys under `t` gain exactly `p` and those under other threads are unchanged |
| `TStoreMem.InsertKeys` | tstoremem/keybook.go:60-70 | the loop inserting every key of a map into a set-map yields the old set united with the map's domain |
| `TStoreMem.Enumerate` | tstoremem/keybook.go:72-76 | the loop appending every set element to a slice yields a slice with no duplicates whose elements are exactly the set |
| `TStoreMem.MemoryKeyBook.constructor` | tstoremem/keybook.go:49-56 | a new book has four empty maps and satisfies the invariant |
| `TStoreMem.MemoryKeyBook.GetPubKey` | tstoremem/keybook.go:22-29 | the stored public key of (t, p), `None` when the thread or the peer is missing (the lookup `getKey` shape, lines 40-47); under the invariant a returned key is bound to `p`; reads only |
| `TStoreMem.MemoryKeyBook.LogPrivKey` | tstoremem/keybook.go:130-135 | the stored private key of (t, p) (through `getPrivKey`, lines 31-38), `None` when absent; under the invariant a returned key matches `p`; reads only |
| `TStoreMem.MemoryKeyBook.LogReadKey` | tstoremem/keybook.go:156-161 | the stored read key of (t, p), `None` when absent; reads only |
| `TStoreMem.MemoryKeyBook.LogFollowKey` | tstoremem/keybook.go:177-182 | the stored follow key of (t, p), `None` when absent; reads only |
| `TStoreMem.MemoryKeyBook.LogsWithKeys` | tstoremem/keybook.go:58-77 | result has no duplicates and its element set equals the union of the peer domains of `pks[t]` and `sks[t]` |
| `TStoreMem.MemoryKeyBook.ThreadsFromKeys` | tstoremem/keybook.go:79-94 | result has no duplicates, its element set is `dom(pks) ∪ dom(sks)`, and it holds exactly the threads for which some peer has a public or private key |
| `TStoreMem.MemoryKeyBook.LogPubKey` | tstoremem/keybook.go:96-113 | a stored key is returned with nothing changed; otherwise the extraction result is returned and it is cached in `pks[t][p]` only when extraction succeeds; the other three maps never change; a returned key is bound to `p`; the invariant is kept |
| `TStoreMem.MemoryKeyBook.AddLogPubKey` | tstoremem/keybook.go:115-128 | fails with the mismatch error and no change exactly when `p` does not match `pk`; otherwise `pks` becomes `Put(pks, t, p, pk)` and the lookup of (t, p) returns `pk`; the other maps are unchanged |
| `TStoreMem.MemoryKeyBook.AddLogPrivKey` | tstoremem/keybook.go:137-154 | a nil key fails first, then a mismatch fails, each with no change; otherwise only `sks[t][p]` changes, and `LogPrivKey(t, p)` returns the key |
| `TStoreMem.MemoryKeyBook.AddLogReadKey` | tstoremem/keybook.go:163-175 | fails with no change exactly when the key is nil (an empty key is accepted); otherwise only `rks[t][p]` changes, and `LogReadKey(t, p)` returns the key |
| `TStoreMem.MemoryKeyBook.AddLogFollowKey` | tstoremem/keybook.go:184-196 | fails with no change exactly when the key is nil (an empty key is accepted); otherwise only `fks[t][p]` changes, and `LogFollowKey(t, p)` returns the key |

## Left out

- The `sync.RWMutex` and its lock/unlock calls: this is concurrency only, and each method is one atomic step here. This also means the unlocked window in `LogPubKey` between the lookup and the cache write is not modelled.
- The identity library's checks `MatchesPublicKey`, `MatchesPrivateKey` and `ExtractPublicKey`: these are foreign code. They appear as arbitrary function values in `Checks`, and key derivation is not implemented.
- `ExtractPublicKey` is modelled as returning `None` on error and a key on success. The case of a nil key with a nil error is not modelled. The library reports an error whenever it cannot produce a key.
- `AddLogPubKey` with a nil public key is not modelled, and the parameter type excludes it. The source sends that key to the identity library unchecked, and the library does not accept nil.
- The `found` booleans returned by `getPubKey`, `getPrivKey` and `getKey` are not modelled: every caller discards them. The getters return `None` for a miss.
- The order of the slices returned by `LogsWithKeys` and `ThreadsFromKeys`: Go's map iteration order is unspecified. The model states only "no duplicates" and the exact element set. The loops pick elements with `:|`.
- The capacity hint `make(..., 1)` for a new inner map: it has no observable effect.
- `NewLogKeyBook` returns the book behind the `LogKeyBook` interface. The model uses the class directly.
- The address book, its expiry and address streams, the metadata book, and the thread-store facade are not part of this model. `test/threadstore_suite.go` exercises only those parts, through goroutines, channels and timeouts.
- Go maps and slices are references. A writer stores an empty inner map and then inserts into that same map; read and follow keys are `[]byte` slices that are stored and returned by reference (tstoremem/keybook.go:172, 193, 160, 181), so a caller that later mutates its slice changes the stored key. Here maps and byte sequences are values: a writer builds the new inner map and assigns it to the field once, and a stored key can change only through a later `Add*` call. Aliasing of inner maps and of key slices is not modelled.
