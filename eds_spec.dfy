/** The EDS store as an abstract state machine. The dagstore's shard
    registry, the full-index repository, the block files, the accessor
    cache and the last GC result are plain values; each operation of the
    store is a function from the old state and the outcomes of the outside
    code it calls to the new state and what the caller gets back. The
    methods of `EdsStore.Store` are proved to follow these functions, and
    the lemmas here state what the operations promise. */
module EdsSpec {
  import opened Common
  import opened Hex
  import opened EdsDah
  import opened EdsMount

  type Key = string
  type Path = string
  /** `share.DataHash`: the data root of a square. */
  type DataHash = seq<byte>

  const BlocksPath: string := "/blocks/"

  /** `defaultGCInterval`: garbage collection is off unless configured. */
  const DefaultGcInterval: nat := 0

  /** A key of the shape every key made by `put` has: Base16 text. */
  predicate WellFormedKey(k: Key)
  {
    |k| % 2 == 0 && forall i :: 0 <= i < |k| ==> IsHexDigit(k[i])
  }

  /** `shard.KeyFromString(root.String())`: the Base16 text of the root. */
  function KeyOf(root: DataHash): (k: Key)
    ensures WellFormedKey(k)
    ensures |k| == 2 * |root|
  {
    HexEncode(root)
  }

  /** A root's key decodes back to the root, so different roots have
      different keys. */
  lemma KeyOfDecodes(root: DataHash, other: DataHash)
    ensures DecodeString(KeyOf(root)) == Ok(root)
    ensures KeyOf(root) == KeyOf(other) <==> root == other
  {
    DecodeEncode(root);
    DecodeEncode(other);
  }

  /** `basepath + blocksPath + key`. */
  function BlockPath(basepath: string, key: Key): Path
  {
    basepath + BlocksPath + key
  }

  /** What the dagstore records per shard: the error it ended in, if any. */
  datatype ShardInfo = ShardInfo(err: Option<Error>)

  /** The answer of `GetShardInfo`: the info and the lookup error. */
  datatype Lookup = Lookup(info: ShardInfo, err: Option<Error>)

  /** A shard accessor, identified by its shard and a handle of its own. */
  datatype Accessor = Accessor(key: Key, handle: nat)

  /** `dagstore.GCResult.Shards`: per shard, the error of reclaiming it. */
  type GcResult = map<Key, Option<Error>>

  /** How an asynchronous dagstore call ends: refused synchronously, its
      result delivered on the channel, or the caller's context done first,
      by its deadline or by cancellation (the dagstore still finishes the
      operation, with result `late`). */
  datatype DagOutcome<T> = Refused(error: Error) | Delivered(value: T) | Cancelled(late: T, deadline: bool)

  datatype StoreState = StoreState(
    basepath: string,
    registry: map<Key, ShardInfo>,   // the dagstore's shards
    fullIndex: set<Key>,             // keys with a full index in the index repository
    files: map<Path, seq<byte>>,     // the file system: path to contents
    cache: map<Key, Accessor>,       // the blockstore cache of accessors
    lastGcResult: Option<GcResult>,  // None until `Start`
    gcRunning: bool,                 // the `gc` goroutine is alive
    gcInterval: nat)

  // ---------------------------------------------------------------------
  // The dagstore, as far as the store relies on it

  /** `GetShardInfo`: a known key yields its info, an unknown key the zero
      info and `ErrShardUnknown`. */
  function ShardLookup(registry: map<Key, ShardInfo>, key: Key): (l: Lookup)
    ensures l.err.None? <==> key in registry
    ensures l.err.Some? ==> l == Lookup(ShardInfo(None), Some(ErrShardUnknown))
  {
    if key in registry then Lookup(registry[key], None)
    else Lookup(ShardInfo(None), Some(ErrShardUnknown))
  }

  /** `RegisterShard` refuses a key it already has. */
  function RegisterOutcome(registry: map<Key, ShardInfo>, key: Key, o: DagOutcome<Option<Error>>): (r: DagOutcome<Option<Error>>)
    ensures key in registry ==> r == Refused(ErrShardExists)
    ensures key !in registry ==> r == o
  {
    if key in registry then Refused(ErrShardExists) else o
  }

  /** `DestroyShard` refuses a key it does not have, and a destruction that
      runs while an accessor of the shard is held (one the blockstore cache
      keeps) ends in `ActiveReferences`, leaving the shard in place. */
  function DestroyOutcome(registry: map<Key, ShardInfo>, cache: map<Key, Accessor>, key: Key,
                          o: DagOutcome<Option<Error>>): (r: DagOutcome<Option<Error>>)
    ensures key !in registry ==> r == Refused(ErrShardUnknown)
    ensures key in registry && key in cache ==> match r
      case Refused(_) => r == o
      case Delivered(res) => res == Some(ActiveReferences)
      case Cancelled(late, _) => late == Some(ActiveReferences)
    ensures key in registry && key !in cache ==> r == o
  {
    if key !in registry then Refused(ErrShardUnknown)
    else if key !in cache then o
    else match o
      case Refused(_) => o
      case Delivered(_) => Delivered(Some(ActiveReferences))
      case Cancelled(_, deadline) => Cancelled(Some(ActiveReferences), deadline)
  }

  /** `AcquireShard` refuses a key it does not have. */
  function AcquireOutcome(registry: map<Key, ShardInfo>, key: Key, o: DagOutcome<Result<Accessor>>): (r: DagOutcome<Result<Accessor>>)
    ensures key !in registry ==> r == Refused(ErrShardUnknown)
    ensures key in registry ==> r == o
  {
    if key !in registry then Refused(ErrShardUnknown) else o
  }

  /** A registration that ran: the shard is recorded with its result, and
      indexed when it succeeded. */
  function Registered(s: StoreState, key: Key, res: Option<Error>): (t: StoreState)
    ensures t.registry.Keys == s.registry.Keys + {key} && t.registry[key] == ShardInfo(res)
    ensures forall k :: k in s.registry && k != key ==> t.registry[k] == s.registry[k]
    ensures key in t.fullIndex <==> res.None? || key in s.fullIndex
    ensures t.fullIndex - {key} == s.fullIndex - {key}
    ensures t.files == s.files && t.cache == s.cache
  {
    s.(registry := s.registry[key := ShardInfo(res)],
       fullIndex := if res.None? then s.fullIndex + {key} else s.fullIndex)
  }

  /** A destruction that ran: the shard is gone when it succeeded. */
  function Destroyed(s: StoreState, key: Key, res: Option<Error>): (t: StoreState)
    ensures res.None? ==> key !in t.registry && t.registry.Keys == s.registry.Keys - {key}
    ensures res.None? ==> forall k :: k in t.registry ==> t.registry[k] == s.registry[k]
    ensures res.Some? ==> t == s
    ensures t.fullIndex == s.fullIndex && t.files == s.files && t.cache == s.cache
  {
    if res.None? then s.(registry := s.registry - {key}) else s
  }

  // ---------------------------------------------------------------------
  // has

  /** The switch of `has` over the lookup error (compared with `==`, not
      `errors.Is`). */
  function HasOf(l: Lookup): (r: (bool, Option<Error>))
    ensures r.0 <==> l.err.None?
    ensures l.err.Some? && l.err != Some(ErrShardUnknown) ==> r.1 == l.err
  {
    if l.err.None? then (true, l.info.err)
    else if l.err == Some(ErrShardUnknown) then (false, l.info.err)
    else (false, l.err)
  }

  function HasSpec(s: StoreState, root: DataHash): (r: (bool, Option<Error>))
    ensures r.0 <==> KeyOf(root) in s.registry
  {
    HasOf(ShardLookup(s.registry, KeyOf(root)))
  }

  /** The three ways `has` answers, for any lookup. */
  lemma HasCases(l: Lookup)
    ensures l.err.None? ==> HasOf(l) == (true, l.info.err)
    ensures l.err == Some(ErrShardUnknown) ==> HasOf(l) == (false, l.info.err)
    ensures l.err.Some? && l.err != Some(ErrShardUnknown) ==> HasOf(l) == (false, l.err)
    ensures HasOf(l).0 <==> l.err.None?
  {
  }

  /** Over the dagstore: the shard is there exactly when `has` says so, and
      the error is the one the shard ended in. */
  lemma HasMatchesRegistry(s: StoreState, root: DataHash)
    ensures HasSpec(s, root).0 <==> KeyOf(root) in s.registry
    ensures HasSpec(s, root).1 == if KeyOf(root) in s.registry then s.registry[KeyOf(root)].err else None
  {
  }

  // ---------------------------------------------------------------------
  // put

  const WriteEdsContext: string := "failed to write EDS to file"

  /** The registration step of `put` and the `select` on its result. */
  function RegisterSpec(s: StoreState, key: Key, register: DagOutcome<Option<Error>>): (r: (StoreState, Option<Error>))
    ensures r.1.None? <==> key !in s.registry && register == Delivered(None)
    ensures key in s.registry ==> r.0 == s
    ensures r.0.files == s.files && r.0.cache == s.cache
  {
    match RegisterOutcome(s.registry, key, register)
    case Refused(e) => (s, Some(Wrapped("failed to initiate shard registration", e)))
    case Delivered(res) =>
      (Registered(s, key, res), if res.Some? then Some(Wrapped("failed to register shard", res.value)) else None)
    case Cancelled(late, deadline) => (Registered(s, key, late), Some(ContextErr(deadline)))
  }

  /** `put`. The outside code's outcomes are parameters: the error of
      opening the block file, the encoding `WriteEDS` produces (or its
      error), the error of copying the buffer to the file, and how the
      registration ends. */
  function PutSpec(s: StoreState, root: DataHash, openErr: Option<Error>, encoded: Result<seq<byte>>,
                   copyErr: Option<Error>, register: DagOutcome<Option<Error>>): (r: (StoreState, Option<Error>))
    ensures r.0.cache == s.cache
    ensures forall k :: k in r.0.registry && k != KeyOf(root) ==> k in s.registry && r.0.registry[k] == s.registry[k]
    ensures forall k :: k in s.registry && k != KeyOf(root) ==> k in r.0.registry && r.0.registry[k] == s.registry[k]
  {
    if HasSpec(s, root).0 then (s, Some(ErrShardExists))
    else
      var key := KeyOf(root);
      var path := BlockPath(s.basepath, key);
      if openErr.Some? then (s, openErr)
      else
        var created := if path in s.files then s.files else s.files[path := []];
        if encoded.Err? then (s.(files := created), Some(Wrapped(WriteEdsContext, encoded.error)))
        else if copyErr.Some? then (s.(files := created), Some(Wrapped(WriteEdsContext, copyErr.value)))
        else
          RegisterSpec(s.(files := created[path := Overwrite(created[path], encoded.value)]), key, register)
  }

  /** Whenever `has` reports the shard, even alongside an error, `put`
      answers `ErrShardExists` and touches nothing. */
  lemma PutShortCircuit(s: StoreState, root: DataHash, openErr: Option<Error>, encoded: Result<seq<byte>>,
                        copyErr: Option<Error>, register: DagOutcome<Option<Error>>)
    requires HasSpec(s, root).0
    ensures PutSpec(s, root, openErr, encoded, copyErr, register) == (s, Some(ErrShardExists))
  {
  }

  /** `put` succeeds exactly when the shard is new, opening, encoding and
      copying succeed and the registration is delivered without error;
      afterwards the block file starts with the encoding, the shard is
      registered without error, indexed, and reported by `has`. */
  lemma PutSucceeds(s: StoreState, root: DataHash, openErr: Option<Error>, encoded: Result<seq<byte>>,
                    copyErr: Option<Error>, register: DagOutcome<Option<Error>>)
    ensures PutSpec(s, root, openErr, encoded, copyErr, register).1.None? <==>
      KeyOf(root) !in s.registry && openErr.None? && encoded.Ok? && copyErr.None? && register == Delivered(None)
    ensures PutSpec(s, root, openErr, encoded, copyErr, register).1.None? ==>
      var t := PutSpec(s, root, openErr, encoded, copyErr, register).0;
      var path := BlockPath(s.basepath, KeyOf(root));
      && t.registry == s.registry[KeyOf(root) := ShardInfo(None)]
      && t.fullIndex == s.fullIndex + {KeyOf(root)}
      && path in t.files && t.files[path][..|encoded.value|] == encoded.value
      && t.files == s.files[path := t.files[path]]
      && t.cache == s.cache
      && HasSpec(t, root) == (true, None)
  {
    HasMatchesRegistry(s, root);
    var r := PutSpec(s, root, openErr, encoded, copyErr, register);
    if r.1.None? {
      HasMatchesRegistry(r.0, root);
    }
  }

  /** Once the block file is written, whatever the dagstore reports on the
      registration is recorded under the key, a failure included, and the
      error `put` returns names that failure or the context's end. */
  lemma PutRecordsRegistration(s: StoreState, root: DataHash, encoded: seq<byte>,
                               register: DagOutcome<Option<Error>>)
    requires KeyOf(root) !in s.registry
    requires register.Delivered? || register.Cancelled?
    ensures var r := PutSpec(s, root, None, Ok(encoded), None, register);
      var res := if register.Delivered? then register.value else register.late;
      && r.0.registry == s.registry[KeyOf(root) := ShardInfo(res)]
      && (KeyOf(root) in r.0.fullIndex <==> res.None? || KeyOf(root) in s.fullIndex)
      && (register.Delivered? && res.Some? ==> r.1 == Some(Wrapped("failed to register shard", res.value)))
      && (register.Cancelled? ==> r.1 == Some(ContextErr(register.deadline)))
  {
    HasMatchesRegistry(s, root);
  }

  /** After a `put` that got as far as registering, a second `put` of the same
      root is refused and changes nothing, whatever its own outcomes. */
  lemma PutTwice(s: StoreState, root: DataHash, openErr: Option<Error>, encoded: Result<seq<byte>>,
                 copyErr: Option<Error>, register: DagOutcome<Option<Error>>,
                 openErr': Option<Error>, encoded': Result<seq<byte>>,
                 copyErr': Option<Error>, register': DagOutcome<Option<Error>>)
    requires KeyOf(root) in PutSpec(s, root, openErr, encoded, copyErr, register).0.registry
    ensures var t := PutSpec(s, root, openErr, encoded, copyErr, register).0;
      PutSpec(t, root, openErr', encoded', copyErr', register') == (t, Some(ErrShardExists))
  {
    var t := PutSpec(s, root, openErr, encoded, copyErr, register).0;
    HasMatchesRegistry(t, root);
  }

  /** Without truncation, a longer file already at the block path keeps its
      tail after the encoding. */
  lemma PutKeepsStaleTail(s: StoreState, root: DataHash, encoded: seq<byte>)
    requires KeyOf(root) !in s.registry
    requires BlockPath(s.basepath, KeyOf(root)) in s.files
    requires |s.files[BlockPath(s.basepath, KeyOf(root))]| > |encoded|
    ensures var path := BlockPath(s.basepath, KeyOf(root));
      PutSpec(s, root, None, Ok(encoded), None, Delivered(None)) ==
        (Registered(s.(files := s.files[path := encoded + s.files[path][|encoded|..]]), KeyOf(root), None), None)
  {
    HasMatchesRegistry(s, root);
  }

  /** A `put` fails after creating the block file (an empty one when none
      was there) when encoding or copying fails; the dagstore is untouched. */
  lemma PutWriteFailureKeepsFile(s: StoreState, root: DataHash, encoded: Result<seq<byte>>,
                                 copyErr: Option<Error>, register: DagOutcome<Option<Error>>)
    requires KeyOf(root) !in s.registry
    requires encoded.Err? || copyErr.Some?
    ensures var r := PutSpec(s, root, None, encoded, copyErr, register);
      var path := BlockPath(s.basepath, KeyOf(root));
      && r.0.registry == s.registry && r.0.fullIndex == s.fullIndex
      && path in r.0.files
      && r.0.files == (if path in s.files then s.files else s.files[path := []])
      && r.1.Some? && r.1.value.Wrapped? && r.1.value.context == WriteEdsContext
  {
    HasMatchesRegistry(s, root);
  }

  /** Keys that `put` adds are Base16 text, so the registry keeps that shape. */
  lemma PutKeepsKeysWellFormed(s: StoreState, root: DataHash, openErr: Option<Error>, encoded: Result<seq<byte>>,
                               copyErr: Option<Error>, register: DagOutcome<Option<Error>>)
    requires forall k :: k in s.registry ==> WellFormedKey(k)
    ensures forall k :: k in PutSpec(s, root, openErr, encoded, copyErr, register).0.registry ==> WellFormedKey(k)
  {
  }

  // ---------------------------------------------------------------------
  // remove

  /** `DropFullIndex`: whether the index was there, the repository after,
      and the repository's own fault (which leaves the index in place). */
  function DropFullIndex(fullIndex: set<Key>, key: Key, fault: Option<Error>): (r: (bool, set<Key>, Option<Error>))
    ensures r.2 == fault
    ensures fault.None? ==> (r.0 <==> key in fullIndex) && r.1 == fullIndex - {key}
    ensures fault.Some? ==> !r.0 && r.1 == fullIndex
  {
    if fault.Some? then (false, fullIndex, fault) else (key in fullIndex, fullIndex - {key}, None)
  }

  /** The steps of `remove` after the shard is destroyed: drop the index,
      then delete the block file. Not having had an index only warns. */
  function DropAndUnlink(s: StoreState, key: Key, dropFault: Option<Error>, unlinkFault: Option<Error>): (r: (StoreState, Option<Error>))
    ensures r.0.registry == s.registry && r.0.cache == s.cache
    ensures r.1.None? <==> dropFault.None? && BlockPath(s.basepath, key) in s.files && unlinkFault.None?
    ensures r.1.None? ==> r.0.fullIndex == s.fullIndex - {key} && r.0.files == s.files - {BlockPath(s.basepath, key)}
  {
    var drop := DropFullIndex(s.fullIndex, key, dropFault);
    if drop.2.Some? then (s, Some(Wrapped("failed to drop index for " + key, drop.2.value)))
    else
      var s1 := s.(fullIndex := drop.1);
      var path := BlockPath(s.basepath, key);
      if path !in s1.files then (s1, Some(Wrapped("failed to remove CAR file", ErrNotExist)))
      else if unlinkFault.Some? then (s1, Some(Wrapped("failed to remove CAR file", unlinkFault.value)))
      else (s1.(files := s1.files - {path}), None)
  }

  /** `remove`: destroy the shard, drop its index, delete its block file,
      stopping at the first error. */
  function RemoveSpec(s: StoreState, root: DataHash, destroy: DagOutcome<Option<Error>>,
                      dropFault: Option<Error>, unlinkFault: Option<Error>): (r: (StoreState, Option<Error>))
    ensures r.0.cache == s.cache
    ensures r.0.registry == s.registry || r.0.registry == s.registry - {KeyOf(root)}
    ensures r.0.fullIndex <= s.fullIndex && r.0.files.Keys <= s.files.Keys
  {
    var key := KeyOf(root);
    match DestroyOutcome(s.registry, s.cache, key, destroy)
    case Refused(e) => (s, Some(Wrapped("failed to initiate shard destruction", e)))
    case Cancelled(late, deadline) => (Destroyed(s, key, late), Some(ContextErr(deadline)))
    case Delivered(res) =>
      if res.Some? then (s, Some(Wrapped("failed to destroy shard", res.value)))
      else DropAndUnlink(Destroyed(s, key, None), key, dropFault, unlinkFault)
  }

  /** Unless the destruction is delivered without error, `remove` returns
      before the index or the block file is touched. */
  lemma RemoveStopsAtDestroy(s: StoreState, root: DataHash, destroy: DagOutcome<Option<Error>>,
                             dropFault: Option<Error>, unlinkFault: Option<Error>)
    requires DestroyOutcome(s.registry, s.cache, KeyOf(root), destroy) != Delivered(None)
    ensures var r := RemoveSpec(s, root, destroy, dropFault, unlinkFault);
      r.1.Some? && r.0.fullIndex == s.fullIndex && r.0.files == s.files
  {
  }

  /** A failing index drop comes after the destruction and before the file:
      the shard is gone, its index and block file are not. */
  lemma RemoveStopsAtDrop(s: StoreState, root: DataHash, destroy: DagOutcome<Option<Error>>,
                          dropFault: Option<Error>, unlinkFault: Option<Error>)
    requires DestroyOutcome(s.registry, s.cache, KeyOf(root), destroy) == Delivered(None)
    requires dropFault.Some?
    ensures var r := RemoveSpec(s, root, destroy, dropFault, unlinkFault);
      && r.1 == Some(Wrapped("failed to drop index for " + KeyOf(root), dropFault.value))
      && r.0.registry == s.registry - {KeyOf(root)}
      && r.0.fullIndex == s.fullIndex && r.0.files == s.files
  {
  }

  /** A shard without an index is removed all the same: `remove` goes on to
      the block file exactly as when the index was there. */
  lemma RemoveWithoutIndexContinues(s: StoreState, root: DataHash, unlinkFault: Option<Error>)
    requires KeyOf(root) in s.registry
    requires KeyOf(root) !in s.fullIndex
    ensures var r := RemoveSpec(s, root, Delivered(None), None, unlinkFault);
      var indexed := RemoveSpec(s.(fullIndex := s.fullIndex + {KeyOf(root)}), root, Delivered(None), None, unlinkFault);
      r.1 == indexed.1 && r.0.files == indexed.0.files && r.0.registry == indexed.0.registry
      && r.0.fullIndex == s.fullIndex && indexed.0.fullIndex - {KeyOf(root)} == s.fullIndex
    ensures RemoveSpec(s, root, Delivered(None), None, unlinkFault).1.None? <==>
      KeyOf(root) !in s.cache && BlockPath(s.basepath, KeyOf(root)) in s.files && unlinkFault.None?
  {
  }

  /** `remove` succeeds exactly when all three steps do, and then the store
      no longer has the shard, its index or its block file. */
  lemma RemoveComplete(s: StoreState, root: DataHash, destroy: DagOutcome<Option<Error>>,
                       dropFault: Option<Error>, unlinkFault: Option<Error>)
    ensures var r := RemoveSpec(s, root, destroy, dropFault, unlinkFault);
      r.1.None? <==>
        KeyOf(root) in s.registry && KeyOf(root) !in s.cache && destroy == Delivered(None)
        && dropFault.None? && BlockPath(s.basepath, KeyOf(root)) in s.files && unlinkFault.None?
    ensures var r := RemoveSpec(s, root, destroy, dropFault, unlinkFault);
      r.1.None? ==>
        && r.0.registry == s.registry - {KeyOf(root)}
        && r.0.fullIndex == s.fullIndex - {KeyOf(root)}
        && r.0.files == s.files - {BlockPath(s.basepath, KeyOf(root))}
        && HasSpec(r.0, root) == (false, None)
  {
    var r := RemoveSpec(s, root, destroy, dropFault, unlinkFault);
    if r.1.None? {
      HasMatchesRegistry(r.0, root);
    }
  }

  /** `remove` never evicts the shard's accessor from the cache. */
  lemma RemoveKeepsCache(s: StoreState, root: DataHash, destroy: DagOutcome<Option<Error>>,
                         dropFault: Option<Error>, unlinkFault: Option<Error>)
    ensures RemoveSpec(s, root, destroy, dropFault, unlinkFault).0.cache == s.cache
    ensures RemoveSpec(s, root, destroy, dropFault, unlinkFault).0.lastGcResult == s.lastGcResult
  {
  }

  // ---------------------------------------------------------------------
  // getAccessor, getCachedAccessor

  /** `getAccessor`. */
  function AccessorOf(registry: map<Key, ShardInfo>, key: Key, acquire: DagOutcome<Result<Accessor>>): (r: Result<Accessor>)
    ensures key !in registry ==> r == Err(ErrNotFound)
    ensures r.Ok? <==> key in registry && acquire.Delivered? && acquire.value.Ok?
    ensures r.Ok? ==> acquire == Delivered(r)
  {
    match AcquireOutcome(registry, key, acquire)
    case Refused(e) =>
      if Is(e, ErrShardUnknown) then Err(ErrNotFound)
      else Err(Wrapped("failed to initialize shard acquisition", e))
    case Delivered(res) =>
      if res.Err? then Err(Wrapped("failed to acquire shard", res.error)) else res
    case Cancelled(_, deadline) => Err(ContextErr(deadline))
  }

  /** `getAccessor` answers `ErrNotFound` exactly when the acquisition is
      refused with an error that is (or wraps) `ErrShardUnknown`, which an
      unknown key always is. */
  lemma AccessorNotFound(registry: map<Key, ShardInfo>, key: Key, acquire: DagOutcome<Result<Accessor>>)
    ensures AccessorOf(registry, key, acquire) == Err(ErrNotFound) <==>
      AcquireOutcome(registry, key, acquire).Refused? && Is(AcquireOutcome(registry, key, acquire).error, ErrShardUnknown)
    ensures key !in registry ==> AccessorOf(registry, key, acquire) == Err(ErrNotFound)
  {
  }

  /** `getCachedAccessor`: a hit is served from the cache; a miss acquires
      and, only when that succeeds, caches the accessor. */
  function CachedAccessorSpec(s: StoreState, key: Key, acquire: DagOutcome<Result<Accessor>>): (r: (StoreState, Result<Accessor>))
    ensures r.1.Ok? ==> key in r.0.cache && r.0.cache[key] == r.1.value
    ensures r.0 == s || r.0 == s.(cache := r.0.cache)
    ensures s.cache.Keys <= r.0.cache.Keys && forall k :: k in s.cache ==> r.0.cache[k] == s.cache[k]
  {
    if key in s.cache then (s, Ok(s.cache[key]))
    else
      var a := AccessorOf(s.registry, key, acquire);
      if a.Err? then (s, a) else (s.(cache := s.cache[key := a.value]), a)
  }

  /** A hit does not depend on the dagstore at all. */
  lemma CacheHitSkipsAcquire(s: StoreState, key: Key, acquire: DagOutcome<Result<Accessor>>, acquire': DagOutcome<Result<Accessor>>)
    requires key in s.cache
    ensures CachedAccessorSpec(s, key, acquire) == CachedAccessorSpec(s, key, acquire') == (s, Ok(s.cache[key]))
  {
  }

  /** A miss answers what `getAccessor` answers; only a success changes the
      state, by caching the new accessor under its key. */
  lemma CacheMiss(s: StoreState, key: Key, acquire: DagOutcome<Result<Accessor>>)
    requires key !in s.cache
    ensures CachedAccessorSpec(s, key, acquire).1 == AccessorOf(s.registry, key, acquire)
    ensures CachedAccessorSpec(s, key, acquire).0 ==
      if AccessorOf(s.registry, key, acquire).Ok?
      then s.(cache := s.cache[key := AccessorOf(s.registry, key, acquire).value]) else s
  {
  }

  /** Once a miss has cached an accessor, asking again is a hit on it. */
  lemma CachedAccessorIdempotent(s: StoreState, key: Key, acquire: DagOutcome<Result<Accessor>>, acquire': DagOutcome<Result<Accessor>>)
    requires CachedAccessorSpec(s, key, acquire).1.Ok?
    ensures var t := CachedAccessorSpec(s, key, acquire);
      CachedAccessorSpec(t.0, key, acquire') == t
  {
  }

  /** While the cache holds an accessor of a shard, `remove` cannot take the
      shard away: the destruction fails (or, if the dagstore refuses it
      outright, never starts), nothing is dropped or deleted, `has` still
      reports the shard, and the cache still serves the accessor. */
  lemma RemoveCachedFails(s: StoreState, root: DataHash, destroy: DagOutcome<Option<Error>>,
                          dropFault: Option<Error>, unlinkFault: Option<Error>,
                          acquire: DagOutcome<Result<Accessor>>)
    requires KeyOf(root) in s.cache
    ensures var t := RemoveSpec(s, root, destroy, dropFault, unlinkFault);
      && t.1.Some? && t.0 == s
      && CachedAccessorSpec(t.0, KeyOf(root), acquire).1 == Ok(s.cache[KeyOf(root)])
    ensures KeyOf(root) in s.registry && !destroy.Refused? ==>
      var t := RemoveSpec(s, root, destroy, dropFault, unlinkFault);
      t.1 == Some(if destroy.Cancelled? then ContextErr(destroy.deadline)
                  else Wrapped("failed to destroy shard", ActiveReferences))
  {
  }

  // ---------------------------------------------------------------------
  // getDAH

  /** `getDAH`. Reading the header from the accessor is outside code, so its
      result is a parameter, as is the header's hash function. */
  function GetDahSpec(s: StoreState, root: DataHash, acquire: DagOutcome<Result<Accessor>>,
                      header: Result<CarHeader>, hashOf: DataAvailabilityHeader -> seq<byte>): (r: (StoreState, Result<DataAvailabilityHeader>))
    ensures r.1.Ok? ==> header.Ok? && r.1.value == DahOf(header.value) && hashOf(r.1.value) == root
    ensures r.0.registry == s.registry && r.0.files == s.files
  {
    var got := CachedAccessorSpec(s, KeyOf(root), acquire);
    if got.1.Err? then (got.0, Err(Wrapped("eds/store: failed to get accessor", got.1.error)))
    else if header.Err? then (got.0, Err(Wrapped("eds/store: failed to read car header", header.error)))
    else if hashOf(DahOf(header.value)) != root then (got.0, Err(IntegrityMismatch(root)))
    else (got.0, Ok(DahOf(header.value)))
  }

  /** Once the header is read, `getDAH` fails with an integrity mismatch
      exactly when the rebuilt header does not hash to the root; otherwise
      it returns that header, which hashes to the root. */
  lemma GetDahIntegrity(s: StoreState, root: DataHash, acquire: DagOutcome<Result<Accessor>>,
                        h: CarHeader, hashOf: DataAvailabilityHeader -> seq<byte>)
    requires CachedAccessorSpec(s, KeyOf(root), acquire).1.Ok?
    ensures GetDahSpec(s, root, acquire, Ok(h), hashOf).1 == Err(IntegrityMismatch(root)) <==> hashOf(DahOf(h)) != root
    ensures GetDahSpec(s, root, acquire, Ok(h), hashOf).1.Ok? ==>
      GetDahSpec(s, root, acquire, Ok(h), hashOf).1.value == DahOf(h) && hashOf(DahOf(h)) == root
  {
  }

  /** `getDAH` changes the state only as `getCachedAccessor` does. */
  lemma GetDahCachesOnly(s: StoreState, root: DataHash, acquire: DagOutcome<Result<Accessor>>,
                         header: Result<CarHeader>, hashOf: DataAvailabilityHeader -> seq<byte>)
    ensures GetDahSpec(s, root, acquire, header, hashOf).0 == CachedAccessorSpec(s, KeyOf(root), acquire).0
    ensures GetDahSpec(s, root, acquire, header, hashOf).0.registry == s.registry
  {
  }

  // ---------------------------------------------------------------------
  // Start and gc

  /** `Start`: on a dagstore that starts, record an empty GC result and
      launch collection only when an interval is set. */
  function StartSpec(s: StoreState, startErr: Option<Error>): (r: (StoreState, Option<Error>))
    ensures r.1 == startErr
    ensures r.0.registry == s.registry && r.0.files == s.files && r.0.cache == s.cache
    ensures startErr.None? ==> r.0.lastGcResult == Some(map[]) && (r.0.gcRunning <==> s.gcInterval != 0)
  {
    if startErr.Some? then (s, startErr)
    else (s.(lastGcResult := Some(map[]), gcRunning := s.gcInterval != 0), None)
  }

  /** After a successful start the GC result is the empty map, and GC runs
      exactly when the interval is non-zero; never at the default. */
  lemma StartGc(s: StoreState)
    ensures StartSpec(s, None).0.lastGcResult == Some(map[])
    ensures StartSpec(s, None).0.gcRunning <==> s.gcInterval != 0
    ensures s.gcInterval == DefaultGcInterval ==> !StartSpec(s, None).0.gcRunning
  {
  }

  /** What the `gc` loop sees at each wake-up: its context done, or a tick on
      which the dagstore collected (or failed to). */
  datatype GcTick = Done | Collected(result: Result<GcResult>)

  predicate Stops(t: GcTick)
  {
    t.Done? || t.result.Err?
  }

  /** The `gc` loop over the first ticks: the last GC result it leaves, how
      many ticks it consumed, and whether it returned. */
  function GcRun(ticks: seq<GcTick>, last: Option<GcResult>): (r: (Option<GcResult>, nat, bool))
    ensures r.1 <= |ticks|
    ensures r.2 <==> exists i :: 0 <= i < |ticks| && Stops(ticks[i])
    ensures r.2 ==> r.1 >= 1 && Stops(ticks[r.1 - 1])
    ensures !r.2 ==> r.1 == |ticks|
    decreases |ticks|
  {
    if ticks == [] then (last, 0, false)
    else if Stops(ticks[0]) then (last, 1, true)
    else
      var rest := GcRun(ticks[1..], Some(ticks[0].result.value));
      (rest.0, rest.1 + 1, rest.2)
  }

  /** Fail-stop: the loop returns at the first tick that is a done context
      or a failed collection, leaving the result of the collection before
      it (or the one it started with), and later ticks play no part. */
  lemma {:induction false} GcFailStop(ticks: seq<GcTick>, last: Option<GcResult>, i: nat)
    requires i < |ticks| && Stops(ticks[i])
    requires forall j :: 0 <= j < i ==> !Stops(ticks[j])
    ensures GcRun(ticks, last) == (if i == 0 then last else assert !Stops(ticks[i - 1]); Some(ticks[i - 1].result.value), i + 1, true)
    decreases i
  {
    if i > 0 {
      GcFailStop(ticks[1..], Some(ticks[0].result.value), i - 1);
    }
  }

  /** When every tick collects, the loop is still running and holds the
      result of the last one. */
  lemma {:induction false} GcAllCollected(ticks: seq<GcTick>, last: Option<GcResult>)
    requires forall j :: 0 <= j < |ticks| ==> !Stops(ticks[j])
    ensures GcRun(ticks, last) == (if ticks == [] then last else assert !Stops(ticks[|ticks| - 1]); Some(ticks[|ticks| - 1].result.value), |ticks|, false)
    decreases |ticks|
  {
    if ticks != [] {
      GcAllCollected(ticks[1..], Some(ticks[0].result.value));
    }
  }

  // ---------------------------------------------------------------------
  // list

  predicate Distinct(keys: seq<Key>)
  {
    forall i, j :: 0 <= i < j < |keys| ==> keys[i] != keys[j]
  }

  /** `hashes` is what decoding `keys` one by one gives. */
  predicate DecodedAs(keys: seq<Key>, hashes: seq<DataHash>)
  {
    |keys| == |hashes| && forall i :: 0 <= i < |keys| ==> DecodeString(keys[i]) == Ok(hashes[i])
  }

  /** One iteration of `list`: a fresh key that decodes extends both. */
  lemma ListStep(keys: seq<Key>, hashes: seq<DataHash>, k: Key, h: DataHash)
    requires Distinct(keys) && DecodedAs(keys, hashes)
    requires k !in keys && DecodeString(k) == Ok(h)
    ensures Distinct(keys + [k]) && DecodedAs(keys + [k], hashes + [h])
  {
    var ks, hs := keys + [k], hashes + [h];
    forall i | 0 <= i < |ks| ensures DecodeString(ks[i]) == Ok(hs[i]) {
      if i < |keys| {
        assert ks[i] == keys[i] && hs[i] == hashes[i];
      }
    }
  }

  /** Every registry key `put` can make decodes, so `list` cannot fail on a
      registry made by `put`. */
  lemma WellFormedKeyDecodes(k: Key)
    requires WellFormedKey(k)
    ensures DecodeString(k).Ok? && |DecodeString(k).value| == |k| / 2
  {
    DecodeStringCases(k);
  }
}
