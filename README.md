# EDS store and namespace arithmetic, modelled in Dafny

This project models two parts of celestia-node.

The first is the `eds.Store` facade (`share/eds/store.go`). It keeps
extended data squares (EDS) as CARv1 block files. It registers each file as
a dagstore shard keyed by the data root, and serves shard accessors through
a cache. The store is modelled as an abstract state machine. The state is:

- the dagstore's shard registry (key to the error the shard ended in);
- the set of keys that have a full index in the index repository;
- the file system (path to contents);
- the accessor cache;
- the last GC result, whether the GC loop is running, and the GC interval.

The dagstore, the file system, the CAR codec and the hash function are
outside code. What they return is a parameter of each operation: an
"outcome". An asynchronous dagstore call ends in one of three ways. It can
be refused synchronously, or deliver a result on its channel, or be
overtaken by the caller's context. The context is done either because its
deadline passed or because it was cancelled, and the caller then gets
`ctx.Err()`: `DeadlineExceeded` or `ContextCanceled`. In that last case the
dagstore still finishes the work later.

The abstract dagstore has four fixed rules:

- it refuses to register a key it already has;
- it refuses to destroy a key it does not have;
- it refuses to acquire a key it does not have;
- a destruction of a shard whose accessor is still held fails with
  `ActiveReferences` and leaves the shard registered. The accessors the
  store holds are the ones in its cache.

The second part is `addToNamespace` from `share/getters/shrex_test.go`. It
adds a signed 64-bit integer to a byte string that is read as one big-endian
number. It works byte by byte with a carry. It reports `"namespace overflow"`
when the true sum does not fit.

Modules:

- `Common`: bytes, `int64`, `Option`, `Result`, the error values, and
  `errors.Is`.
- `Hex`: Base16 as Go's `encoding/hex` does it (section 8 of RFC 4648).
  - Shard keys are the upper-case Base16 text of the data root.
  - `list` decodes them with `hex.DecodeString`. That call converts the key
    to its UTF-8 bytes (section 3 of RFC 3629) and decodes the bytes. It
    accepts both letter cases. It reports the first byte that is not a
    digit, or `ErrLength` for an odd count of digits.
  - So a key with a non-ASCII character fails on that character's first
    UTF-8 byte: for "0é" the error names the byte 0xC3.
- `Getters`: `addToNamespace`, its specification, and the four test vectors.
- `EdsDah`: `dahFromCARHeader`.
- `EdsMount`: the `inMemoryOnceMount` class.
- `EdsSpec`: the store's state, a function per operation, and the lemmas
  about them.
- `EdsStore`: the `Store` class. Its methods perform the Go steps in order.
  Most methods are proved to produce exactly the state and answer that the
  matching `EdsSpec` function gives. `List`, `DropIndex`, `RemoveFile` and
  `WriteBlockFile` state their results directly in their own contracts.

Three consequences of the code that a caller might not expect:

- `remove` does not evict the shard's accessor from the cache
  (`RemoveKeepsCache`). While that accessor is cached, the dagstore does
  not destroy the shard. So `remove` of a shard whose accessor is cached
  fails. The shard, its index, its block file and the cached accessor all
  stay (`RemoveCachedFails`).
- The block file is opened with `O_CREATE|O_WRONLY` and without `O_TRUNC`.
  A longer file already at that path keeps its tail after the new encoding
  (`PutKeepsStaleTail`).
- `addToNamespace` with the most negative `int` is not excluded. Go's
  negation wraps it to itself, and `uint64` of that value is 2^63. For a 64-bit
  `int` the two wrap-arounds cancel, so the addend is still the magnitude of `val` (`AddendIsMagnitude`).
  The model takes no precondition beyond what the slice expression needs:
  `len(ns) >= 8` whenever `val != 0`.

## Model

| member | source | states |
|---|---|---|
| `Getters.AddToNamespace` | share/getters/shrex_test.go:281-323 | The byte loop returns exactly the specification `AddSpec`. A zero value returns the namespace itself. At least 8 bytes are required only when the value is non-zero. |
| `Getters.AddSpec` | share/getters/shrex_test.go:281-323 | The result is `Ok` iff the value of `ns` plus `val` lies in [0, 256^len(ns)). On `Ok` the length is kept and the value is that sum. Otherwise the error is the namespace overflow. |
| `Getters.MakeAddend` | share/getters/shrex_test.go:285-291 | The zero-filled result array with `uint64(val)` or `uint64(-val)` in its last 8 bytes, read as a number and signed by the direction, equals `val`. |
| `Getters.AddendIsMagnitude` | share/getters/shrex_test.go:287-291 | The number written into the last 8 bytes is the magnitude of `val`. This also holds for the most negative `int`, where Go's negation wraps. |
| `Getters.PutUint64` | share/getters/shrex_test.go:288 | The array is unchanged outside `[off, off+8)`. Those 8 bytes hold `v` big-endian. |
| `Getters.Negate` | share/getters/shrex_test.go:290 | Go's 64-bit `-val`: the result plus `val` is a multiple of 2^64, so it wraps for the most negative value. |
| `Getters.Uint64` | share/getters/shrex_test.go:288-290 | `uint64(x)` of a signed 64-bit value is below 2^64. It is `x` for `x >= 0` and `x + 2^64` for a negative `x`. |
| `Getters.AddColumn` | share/getters/shrex_test.go:296-314 | One byte of the loop: the new byte plus 256 times the outgoing carry equals the namespace byte, plus or minus the addend byte, plus the incoming carry. The carry stays in {-1, 0, 1}. |
| `Getters.CarryStep` | share/getters/shrex_test.go:294-315 | One iteration of the loop keeps the invariant: the bytes from `i` on, plus the carry weighted by 256^(len-i), equal the suffix of `ns` plus or minus the suffix of the addend. The carry stays in {-1, 0, 1}. |
| `Getters.FinalCarry` | share/getters/shrex_test.go:317-322 | Once every byte is done, a non-zero carry means the sum does not fit (overflow). A zero carry means the bytes are the sum. |
| `Getters.PositiveValueAddition` | share/getters/shrex_test.go:333-339 | Ten bytes of 0x01 plus 42: nine bytes of 0x01, then 0x2b. |
| `Getters.NegativeValueAddition` | share/getters/shrex_test.go:340-346 | Eleven bytes of 0x01 minus 42: nine bytes of 0x01, then 0x00, 0xd7. |
| `Getters.OverflowError` | share/getters/shrex_test.go:347-353 | Ten bytes of 0xFF plus 1 overflows. |
| `Getters.OverflowErrorNegative` | share/getters/shrex_test.go:354-360 | Ten zero bytes minus 1 overflows. |
| `Hex.HexEncode` | share/eds/store.go:205 | The key of a root has two digits per byte, all of them hex digits. |
| `Hex.Utf8Char` | share/eds/store.go:538 | Go's `[]byte(s)` of one character: one to four bytes. A single byte exactly for ASCII, and then the character itself. A longer encoding starts with a byte of at least 0xC0. |
| `Hex.Utf8` | share/eds/store.go:538 | Go's `[]byte(s)` of a text: at least one and at most four bytes per character. |
| `Hex.Utf8Digits` | share/eds/store.go:538 | A text is all hex digits iff its UTF-8 bytes are all hex digit bytes. |
| `Hex.Decode` | share/eds/store.go:538 | `hex.Decode` on bytes: any error is `ErrLength` or an invalid byte. |
| `Hex.DecodeCases` | share/eds/store.go:538 | Decoding bytes succeeds iff the length is even and every byte is a hex digit. Decoded byte i is 16·value(2i) + value(2i+1). `ErrLength` comes exactly for an odd count of digits. |
| `Hex.DecodeReportsFirstInvalid` | share/eds/store.go:538-541 | The error names the first byte, in order, that is not a hex digit. |
| `Hex.DecodeString` | share/eds/store.go:538 | `hex.DecodeString` decodes the UTF-8 bytes of the text. Any error is `ErrLength` or an invalid byte. |
| `Hex.DecodeStringCases` | share/eds/store.go:538 | On a key: decoding succeeds iff the length is even and every character is a hex digit. Decoded byte i is 16·digit(2i) + digit(2i+1). `ErrLength` comes exactly for an odd count of digits. |
| `Hex.DecodeStringReportsFirstInvalid` | share/eds/store.go:538-541 | On a key, the error names the first UTF-8 byte of the first character that is not a hex digit. |
| `Hex.NonAsciiKeyReportsLeadByte` | share/eds/store.go:538-541 | The key "0é" fails with the invalid byte 0xC3. |
| `Hex.DecodeEncode` | share/eds/store.go:538 | Decoding a key made from a root gives back that root. |
| `Hex.EncodeInjective` | share/eds/store.go:205 | Different roots never share a key. |
| `EdsSpec.KeyOf` | share/eds/store.go:205 | A root's shard key is a well-formed key, two digits per byte of the root. |
| `EdsSpec.KeyOfDecodes` | share/eds/store.go:205 | A root's key decodes back to the root, and two roots share a key iff they are equal. |
| `EdsSpec.Destroyed` | share/eds/store.go:441-454 | A successful destruction removes exactly the key from the registry. A failed one changes nothing. The index, the files and the cache are never touched. |
| `EdsSpec.DestroyOutcome` | share/eds/store.go:441-454 | An unknown key is refused with `ErrShardUnknown`. For a known key whose accessor is cached, a destruction that runs ends in `ActiveReferences`, delivered or late. Otherwise the destruction ends as its outcome says. |
| `EdsSpec.HasOf` | share/eds/store.go:514-521 | `has` is true iff the lookup has no error. A lookup error other than `ErrShardUnknown` is returned as it is. |
| `EdsSpec.HasSpec` | share/eds/store.go:511-522 | `has` is true iff the root's key is registered. |
| `Common.Chain` | share/eds/store.go:382 | The chain `errors.Unwrap` walks starts with the error itself. |
| `Common.Is` | share/eds/store.go:382 | `errors.Is(e, target)` holds iff `target` is on the unwrap chain of `e`. |
| `Common.ContextErr` | share/eds/store.go:238 | `ctx.Err()` of a done context is `DeadlineExceeded` iff its deadline passed, `ContextCanceled` otherwise. |
| `EdsSpec.ShardLookup` | share/eds/store.go:513 | The lookup error is absent iff the key is registered. An unknown key gives the zero info and `ErrShardUnknown`. |
| `EdsMount.Overwrite` | share/eds/store.go:206 | Writing `b` over an existing file without truncation: the first `len(b)` bytes are `b`, and the rest of a longer old file is kept. |
| `EdsSpec.HasCases` | share/eds/store.go:514-521 | `has` has three cases. A found shard gives (true, info error). `ErrShardUnknown` gives (false, info error). Any other lookup error gives (false, that error). `has` is true iff there is no lookup error. |
| `EdsSpec.HasMatchesRegistry` | share/eds/store.go:511-522 | `has` is true iff the key is registered. Its error is the one the shard ended in, and none for an unknown key. |
| `EdsSpec.RegisterOutcome` | share/eds/store.go:229-231 | Registering a key the dagstore already knows is refused with `ErrShardExists`. A new key's registration ends as its outcome says. |
| `EdsSpec.Registered` | share/eds/store.go:229-244 | A registration result puts the key in the registry with that result and leaves every other key's entry alone. The key is indexed iff the registration succeeded or it was indexed before. Files and cache are unchanged. |
| `EdsSpec.RegisterSpec` | share/eds/store.go:229-244 | The registration step succeeds iff the key is new and the result is delivered without error. A known key leaves the state unchanged. Files and cache are never touched. |
| `EdsSpec.PutSpec` | share/eds/store.go:199-245 | `put` never changes the cache. Every other key keeps its registry entry, and `put` adds no key but its own. |
| `EdsSpec.PutRecordsRegistration` | share/eds/store.go:229-244 | Once the block file is written, the dagstore's answer is recorded under the key even when it is a failure or arrives late. Only a success indexes the key. A delivered failure returns "failed to register shard" wrapping it; a done context returns the context's error. |
| `EdsSpec.PutShortCircuit` | share/eds/store.go:200-203 | Whenever `has` is true, even with an error, `put` returns `ErrShardExists` and leaves the state as it was. No file is opened and nothing is registered. |
| `EdsSpec.PutSucceeds` | share/eds/store.go:199-245 | `put` succeeds iff all of these hold: the key is new, opening, encoding and copying succeed, and the registration is delivered without error. After a success the key is registered without error and indexed, the block file starts with the encoding, the other files and the cache are unchanged, and `has` then reports (true, none). |
| `EdsSpec.PutTwice` | share/eds/store.go:200-203 | After a `put` that reached the registry, a second `put` of the same root is refused and changes nothing, whatever its outcomes. |
| `EdsSpec.PutKeepsStaleTail` | share/eds/store.go:206-226 | With no `O_TRUNC`, a longer file at the block path ends up as the encoding followed by the old file's tail. |
| `EdsSpec.PutWriteFailureKeepsFile` | share/eds/store.go:206-226 | When encoding or copying fails, the block file has already been created (empty if it was absent). The registry and the index are unchanged. The error is wrapped as "failed to write EDS to file". |
| `EdsSpec.PutKeepsKeysWellFormed` | share/eds/store.go:205-229 | `put` only adds keys that are Base16 text, so a registry of such keys stays one. |
| `EdsSpec.DropFullIndex` | share/eds/store.go:456-462 | Dropping the full index returns the fault it met. Without a fault the key leaves the index, and `dropped` is true iff it was there. A fault leaves the index as it was and reports nothing dropped. |
| `EdsSpec.DropAndUnlink` | share/eds/store.go:456-468 | The index and file steps never touch the registry or the cache. They succeed iff the drop has no fault, the block file exists and its deletion has no fault. On success the index and the file are gone. |
| `EdsSpec.RemoveSpec` | share/eds/store.go:438-469 | `remove` never changes the cache. It either keeps the registry or removes exactly the root's key. The index and the files only shrink. |
| `EdsSpec.RemoveStopsAtDestroy` | share/eds/store.go:441-454 | Unless the destruction is delivered without error, `remove` fails before touching the index or the block file. |
| `EdsSpec.RemoveStopsAtDrop` | share/eds/store.go:456-462 | A failing index drop returns the wrapped error. The shard is already destroyed; the index and the block file remain. |
| `EdsSpec.RemoveWithoutIndexContinues` | share/eds/store.go:456-459 | If the shard had no index, `remove` only warns and continues. It gives the same answer, files and registry as when the index was present. It succeeds iff the accessor is not cached, the block file exists and deleting it does not fail. |
| `EdsSpec.RemoveComplete` | share/eds/store.go:438-469 | `remove` succeeds iff all hold: the shard is known, its accessor is not cached, the destruction is delivered without error, the index drop does not fail, the block file exists, and deleting it does not fail. Afterwards the shard, its index and its file are gone, and `has` reports (false, none). |
| `EdsSpec.RemoveKeepsCache` | share/eds/store.go:438-469 | No outcome of `remove` changes the accessor cache or the GC result. |
| `EdsSpec.AccessorOf` | share/eds/store.go:378-398 | An unknown key gives `ErrNotFound`. An accessor is returned iff the key is known and the acquisition delivers one, and then it is that accessor. |
| `EdsSpec.AcquireOutcome` | share/eds/store.go:380-386 | Acquiring a key the dagstore does not know is refused with `ErrShardUnknown`. A known key's acquisition ends as its outcome says. |
| `EdsSpec.AccessorNotFound` | share/eds/store.go:380-386 | `getAccessor` returns `ErrNotFound` iff the acquisition is refused with an error that is or wraps `ErrShardUnknown`. An unknown key always gets it. |
| `EdsSpec.CachedAccessorSpec` | share/eds/store.go:400-425 | A returned accessor is in the cache under the key. Only the cache can change, and every entry already cached stays as it was. |
| `EdsSpec.CacheHitSkipsAcquire` | share/eds/store.go:406-413 | A cache hit returns the cached accessor and leaves the state unchanged, whatever the dagstore would have done. |
| `EdsSpec.CacheMiss` | share/eds/store.go:415-424 | A miss returns what `getAccessor` returns. Only a success changes the state, by caching that accessor under the key. An acquire error leaves the cache untouched. |
| `EdsSpec.CachedAccessorIdempotent` | share/eds/store.go:400-425 | After a successful lookup, asking again returns the same accessor from the cache and changes nothing. |
| `EdsSpec.RemoveCachedFails` | share/eds/store.go:438-454 | While the shard's accessor is cached, `remove` fails and changes nothing, and the cache still serves the accessor. For a known key whose destruction is not refused, the error is the wrapped `ActiveReferences`, or the context's error when the caller stopped waiting. |
| `EdsSpec.GetDahSpec` | share/eds/store.go:346-363 | A returned header is the one rebuilt from the CAR header, and it hashes to the root. The registry and the files are not changed. |
| `EdsSpec.GetDahIntegrity` | share/eds/store.go:358-362 | Once the header is read, `getDAH` fails with an integrity mismatch iff the rebuilt header does not hash to the root. Otherwise it returns that header. |
| `EdsSpec.GetDahCachesOnly` | share/eds/store.go:346-352 | `getDAH` changes the state only as `getCachedAccessor` does. |
| `EdsSpec.StartSpec` | share/eds/store.go:126-143 | `Start` returns the dagstore's start error. It changes neither the registry, the files nor the cache. On success the GC result is empty and GC runs iff the interval is non-zero. |
| `EdsSpec.StartGc` | share/eds/store.go:134-141 | After a successful start the GC result is the empty map. GC runs iff the interval is non-zero, and never at the default interval. |
| `EdsSpec.GcRun` | share/eds/store.go:155-173 | The loop consumes at most all ticks. It returns iff some tick is a done context or a failed collection, and then the last tick it consumed is such a tick. Otherwise it consumes every tick. |
| `EdsSpec.GcFailStop` | share/eds/store.go:155-173 | The loop returns at the first tick whose context is done or whose collection fails. It keeps the result of the collection before that tick, or the one it started with. Later ticks play no part. |
| `EdsSpec.GcAllCollected` | share/eds/store.go:155-173 | When every tick collects, the loop is still running and holds the last tick's result. |
| `EdsSpec.ListStep` | share/eds/store.go:537-543 | Appending a new key that decodes, together with its hash, keeps the keys distinct and paired with their decodings. |
| `EdsSpec.WellFormedKeyDecodes` | share/eds/store.go:538 | A key of the shape `put` makes always decodes, to half as many bytes. |
| `EdsDah.DahOf` | share/eds/store.go:366-376 | Rows and columns together hold one entry per root. There are as many column roots as row roots, plus one for an odd count. |
| `EdsDah.DahOfSplit` | share/eds/store.go:366-376 | On n roots, the header has floor(n/2) row roots and n - floor(n/2) column roots. Rows followed by columns are the converted roots in header order, each one its CID's digest. |
| `EdsDah.DahFromCarHeader` | share/eds/store.go:366-376 | The append loop builds the header the specification describes. Rows followed by columns are all the converted roots. |
| `EdsMount.FileFetch` | share/eds/store.go:578 | The embedded file mount's fetch opens the block file iff it exists, returning its contents. Otherwise the error is "not exist". |
| `EdsMount.InMemoryOnceMount.constructor` | share/eds/store.go:213-217 | `put`'s mount starts with an empty buffer, an unset flag and the block path. |
| `EdsMount.InMemoryOnceMount.Fetch` | share/eds/store.go:571-579 | While the buffer is held and the flag is unset, a fetch returns the buffered bytes, releases the buffer and sets the flag. Otherwise it opens the file; the flag is then set only if a buffer was held. |
| `EdsMount.InMemoryOnceMount.Write` | share/eds/store.go:581-583 | Appends the bytes to the buffer and reports all of them written. |
| `EdsMount.InMemoryOnceMount.WriteTo` | share/eds/store.go:585-587 | Copies exactly the buffer, or fails with the sink's error. The mount is not modified. |
| `EdsMount.BufferCopyFetch` | share/eds/store.go:206-229 | The block file is created when missing; the encoding is written chunk by chunk, then copied over the start of the file; a failed copy leaves the file as opened. The first fetch still returns every chunk from memory. The second fetch reads the file after the copy: after a successful copy it starts with exactly the bytes the first fetch served, and for a new file it is those bytes. |
| `EdsStore.Store.constructor` | share/eds/store.go:113-121 | A new store has an empty cache, no GC result and the default GC interval 0. |
| `EdsStore.Store.GetShardInfo` | share/eds/store.go:513 | The dagstore's lookup of a key, as `ShardLookup` prescribes. |
| `EdsStore.Store.RegisterShard` | share/eds/store.go:229-244 | The registration refuses a known key. Otherwise the shard is recorded with the result it ends in, delivered or late, and indexed on success. |
| `EdsStore.Store.DestroyShard` | share/eds/store.go:441-454 | Ends as `DestroyOutcome` says, so a cached accessor makes it fail. The shard leaves the registry exactly when the destruction succeeds, delivered or late. |
| `EdsStore.Store.AcquireShard` | share/eds/store.go:380 | The acquisition refuses an unknown key. Otherwise it ends as its outcome says. |
| `EdsStore.Store.DropIndex` | share/eds/store.go:456-462 | Drops the key's full index and reports whether one was there. A fault leaves the index in place. |
| `EdsStore.Store.RemoveFile` | share/eds/store.go:464-467 | Deleting a missing file is `ErrNotExist`. A fault leaves the file. Otherwise the file is gone. |
| `EdsStore.Store.Has` | share/eds/store.go:511-522 | Returns `HasSpec` of the current state: true iff the shard is registered. |
| `EdsStore.Store.Put` | share/eds/store.go:199-245 | The step-by-step `put` gives exactly the state and error of `PutSpec`. |
| `EdsStore.Store.WriteBlockFile` | share/eds/store.go:206-226 | Creates the block file when missing. An encoding or copy error returns the wrapped error and leaves the file as opened. Otherwise the encoding is written over the start of the file. |
| `EdsStore.Store.Register` | share/eds/store.go:229-244 | The registration and the wait for its result give exactly the state and error of `RegisterSpec`. |
| `EdsStore.Store.Remove` | share/eds/store.go:438-469 | The step-by-step `remove` gives exactly the state and error of `RemoveSpec`. |
| `EdsStore.Store.GetAccessor` | share/eds/store.go:378-398 | Returns `AccessorOf`, and `ErrNotFound` iff the key is unknown or the refusal is `ErrShardUnknown`. The state does not change. |
| `EdsStore.Store.GetCachedAccessor` | share/eds/store.go:400-425 | Gives exactly the cache and answer of `CachedAccessorSpec`. |
| `EdsStore.Store.GetDah` | share/eds/store.go:346-363 | Gives exactly the cache and answer of `GetDahSpec`, using the append loop of `DahFromCarHeader`. |
| `EdsStore.Store.List` | share/eds/store.go:534-545 | Succeeds iff every registered key decodes. On success it returns one hash per key, in an order that lists every key once, each hash being its key's decoding. On failure the error is some key's decoding error, with no partial result. |
| `EdsStore.Store.Start` | share/eds/store.go:126-143 | Gives exactly the state and error of `StartSpec`. |
| `EdsStore.Store.Gc` | share/eds/store.go:155-173 | Over a sequence of wake-ups, leaves the GC result, the number of ticks consumed and whether the loop returned, as `GcRun` gives them. |

## Left out

- Goroutines, channels, `trackLateResult` and timing. A done context is an
  outcome, `Cancelled(late, deadline)`: the caller gets `DeadlineExceeded`
  or `ContextCanceled`, and the dagstore's late result is applied to the
  registry at once. Which of the two a context reports is a parameter,
  because clocks are not modelled.
- The dagstore internals: registration, acquisition, destruction, GC and
  the shard state machine. The dagstore is not part of this model. It is
  reduced to the outcome parameters and the four rules above. Its
  reference counting is reduced to one rule: a shard with a cached
  accessor is in use, and any other shard is not. Accessors that callers
  have acquired but not released outside the cache are not modelled, and
  neither is the exact text of the dagstore's "active references" error.
- The striped locks, `unsafeGet`, `unsafeAdd` and the cache's eviction policy
  are in code that is not part of this model. A cache insertion always
  succeeds and never evicts. The accessor of a cache entry is the one the
  dagstore returned.
- Real file I/O. `setupPath`, `NewStore`'s wiring and `Stop` are not
  modelled. The file system is a map from path to contents. Open, copy and
  delete faults are parameters, and a failed copy writes nothing (partial
  writes are not modelled).
- The CAR codec (`WriteEDS`, `ReadEDS`, `carv1.ReadHeader`): the encoding
  and the header read are parameters. `DataAvailabilityHeader.Hash` is a
  function parameter.
- EdsDah.NamespacedSha256FromCid: the CID and multihash libraries are not
  part of this model. A CID is reduced to its codec and its digest, so the
  conversion just gives the digest and promises nothing more.
- `share.DataHash.String` is not part of this model. It is taken to be the
  upper-case Base16 of the root (`%X`).
- `GetCAR`, `CARBlockstore`, `Blockstore` and `Get` (store.go:282-334 and
  471-499) only add wrapping around `getCachedAccessor` and the codec.
  Tracing, metrics and logging are omitted. The `!dropped` warning in
  `remove` is a log call and has no effect on the state.
- The network tests and the random square helpers of `shrex_test.go`, and
  `header/headertest/verify_test.go`: their logic lives in other libraries.
- Getters.AddToNamespace: Go's `int` is taken to be 64 bits wide, as on
  the 64-bit platforms the node runs on. With a 32-bit `int`, `-val` of the
  most negative value would wrap at 2^32, and `uint64` of it would not be the
  magnitude of `val`.
- Hex.DecodeString: Go strings are byte strings and may hold bytes that are
  not valid UTF-8. Keys here are Unicode texts, so such keys are not
  modelled.
- EdsStore.Store.Gc: the loop runs forever in Go. The model follows it
  over a finite sequence of wake-ups, so if none of them stops the loop it
  is reported as still running. The GC interval is a `nat` because a
  negative `time.Duration` is not modelled.
- EdsStore.Store.List: Go's random map iteration order is the
  nondeterministic choice of the next key. The method reports the order it
  took as a ghost result.
