/** `eds.Store`: the facade over the dagstore, the index repository, the
    block files and the accessor cache. Each method performs the steps of
    its Go counterpart in order, against the abstract dagstore operations
    below, and is proved to leave the state and answer that the matching
    function of `EdsSpec` prescribes. */
module EdsStore {
  import opened Common
  import opened Hex
  import opened EdsDah
  import opened EdsMount
  import opened EdsSpec

  class Store {
    const basepath: string
    var registry: map<Key, ShardInfo>
    var fullIndex: set<Key>
    var files: map<Path, seq<byte>>
    var cache: map<Key, Accessor>
    var lastGcResult: Option<GcResult>
    var gcRunning: bool
    var gcInterval: nat

    /** The abstract value of the store. */
    function State(): StoreState
      reads this
    {
      StoreState(basepath, registry, fullIndex, files, cache, lastGcResult, gcRunning, gcInterval)
    }

    /** `NewStore` over the shards, indices and files already on disk: an
        empty cache, no GC result until `Start`, the default GC interval. */
    constructor (basepath: string, registry: map<Key, ShardInfo>, fullIndex: set<Key>, files: map<Path, seq<byte>>)
      ensures State() == StoreState(basepath, registry, fullIndex, files, map[], None, false, DefaultGcInterval)
    {
      this.basepath := basepath;
      this.registry := registry;
      this.fullIndex := fullIndex;
      this.files := files;
      cache := map[];
      lastGcResult := None;
      gcRunning := false;
      gcInterval := DefaultGcInterval;
    }

    // -------------------------------------------------------------------
    // The dagstore, the index repository and the file system

    method GetShardInfo(key: Key) returns (info: ShardInfo, err: Option<Error>)
      ensures Lookup(info, err) == ShardLookup(registry, key)
    {
      if key in registry {
        info, err := registry[key], None;
      } else {
        info, err := ShardInfo(None), Some(ErrShardUnknown);
      }
    }

    /** `RegisterShard`, with the way it ends given by `o`. */
    method RegisterShard(key: Key, o: DagOutcome<Option<Error>>) returns (eff: DagOutcome<Option<Error>>)
      modifies this
      ensures eff == RegisterOutcome(old(registry), key, o)
      ensures State() == match eff
        case Refused(_) => old(State())
        case Delivered(res) => Registered(old(State()), key, res)
        case Cancelled(late, _) => Registered(old(State()), key, late)
    {
      if key in registry {
        eff := Refused(ErrShardExists);
        return;
      }
      eff := o;
      if !o.Refused? {
        var res := if o.Delivered? then o.value else o.late;
        registry := registry[key := ShardInfo(res)];
        if res.None? {
          fullIndex := fullIndex + {key};
        }
      }
    }

    /** `DestroyShard`, with the way it ends given by `o`. */
    method DestroyShard(key: Key, o: DagOutcome<Option<Error>>) returns (eff: DagOutcome<Option<Error>>)
      modifies this
      ensures eff == DestroyOutcome(old(registry), old(cache), key, o)
      ensures State() == match eff
        case Refused(_) => old(State())
        case Delivered(res) => Destroyed(old(State()), key, res)
        case Cancelled(late, _) => Destroyed(old(State()), key, late)
    {
      if key !in registry {
        eff := Refused(ErrShardUnknown);
        return;
      }
      if key in cache {
        // the cached accessor is an active reference
        eff := match o
          case Refused(_) => o
          case Delivered(_) => Delivered(Some(ActiveReferences))
          case Cancelled(_, deadline) => Cancelled(Some(ActiveReferences), deadline);
        return;
      }
      eff := o;
      if (o.Delivered? && o.value.None?) || (o.Cancelled? && o.late.None?) {
        registry := registry - {key};
      }
    }

    /** `AcquireShard`, with the way it ends given by `o`. */
    method AcquireShard(key: Key, o: DagOutcome<Result<Accessor>>) returns (eff: DagOutcome<Result<Accessor>>)
      ensures eff == AcquireOutcome(registry, key, o)
    {
      eff := if key !in registry then Refused(ErrShardUnknown) else o;
    }

    /** `carIdx.DropFullIndex`, failing with `fault` if given. */
    method DropIndex(key: Key, fault: Option<Error>) returns (dropped: bool, err: Option<Error>)
      modifies this`fullIndex
      ensures (dropped, fullIndex, err) == DropFullIndex(old(fullIndex), key, fault)
    {
      if fault.Some? {
        return false, fault;
      }
      dropped := key in fullIndex;
      fullIndex := fullIndex - {key};
      err := None;
    }

    /** `os.Remove`, failing with `fault` if given. */
    method RemoveFile(path: Path, fault: Option<Error>) returns (err: Option<Error>)
      modifies this`files
      ensures path !in old(files) ==> err == Some(ErrNotExist) && files == old(files)
      ensures path in old(files) && fault.Some? ==> err == fault && files == old(files)
      ensures path in old(files) && fault.None? ==> err == None && files == old(files) - {path}
    {
      if path !in files {
        return Some(ErrNotExist);
      }
      if fault.Some? {
        return fault;
      }
      files := files - {path};
      err := None;
    }

    // -------------------------------------------------------------------
    // The store

    /** `has`. */
    method Has(root: DataHash) returns (has: bool, err: Option<Error>)
      ensures (has, err) == HasSpec(State(), root)
      ensures has <==> KeyOf(root) in registry
    {
      HasMatchesRegistry(State(), root);
      var key := KeyOf(root);
      var info, lookupErr := GetShardInfo(key);
      if lookupErr.None? {
        return true, info.err;
      } else if lookupErr == Some(ErrShardUnknown) {
        return false, info.err;
      } else {
        return false, lookupErr;
      }
    }

    /** `put`: short-circuit on a known shard, open (creating) the block
        file, buffer the encoding in an `InMemoryOnceMount`, copy it to the
        file, register the shard and wait for the result. */
    method Put(root: DataHash, openErr: Option<Error>, encoded: Result<seq<byte>>,
               copyErr: Option<Error>, register: DagOutcome<Option<Error>>) returns (err: Option<Error>)
      modifies this
      ensures (State(), err) == PutSpec(old(State()), root, openErr, encoded, copyErr, register)
    {
      ghost var s0 := State();
      var has, hasErr := Has(root);
      if has {
        return Some(ErrShardExists);
      }
      var key := KeyOf(root);
      var path := BlockPath(basepath, key);
      if openErr.Some? {
        return openErr;
      }
      ghost var s1 := State();
      err := WriteBlockFile(path, encoded, copyErr);
      if err.Some? {
        return;
      }
      ghost var s2 := State();
      ghost var created := if path in s1.files then s1.files else s1.files[path := []];
      assert s2 == s1.(files := created[path := Overwrite(created[path], encoded.value)]);
      assert PutSpec(s0, root, openErr, encoded, copyErr, register) == RegisterSpec(s2, key, register);
      err := Register(key, register);
    }

    /** The file half of `put`: the block file is opened (created when
        missing), the encoding is buffered in an `InMemoryOnceMount` and
        copied to the file. An encoding or copy error leaves the file as
        opened. */
    method WriteBlockFile(path: Path, encoded: Result<seq<byte>>, copyErr: Option<Error>) returns (err: Option<Error>)
      modifies this`files
      ensures var created := if path in old(files) then old(files) else old(files)[path := []];
        if encoded.Err? then err == Some(Wrapped(WriteEdsContext, encoded.error)) && files == created
        else if copyErr.Some? then err == Some(Wrapped(WriteEdsContext, copyErr.value)) && files == created
        else err.None? && files == created[path := Overwrite(created[path], encoded.value)]
    {
      if path !in files {
        files := files[path := []];
      }
      var mount := new InMemoryOnceMount(path);
      if encoded.Err? {
        return Some(Wrapped(WriteEdsContext, encoded.error));
      }
      var _ := mount.Write(encoded.value);
      var copied := mount.WriteTo(copyErr);
      if copied.Err? {
        return Some(Wrapped(WriteEdsContext, copied.error));
      }
      assert copied.value == encoded.value;
      files := files[path := Overwrite(files[path], copied.value)];
      err := None;
    }

    /** The end of `put`: register the shard and wait for the result. */
    method Register(key: Key, register: DagOutcome<Option<Error>>) returns (err: Option<Error>)
      modifies this
      ensures (State(), err) == RegisterSpec(old(State()), key, register)
    {
      var eff := RegisterShard(key, register);
      match eff {
        case Refused(e) =>
          err := Some(Wrapped("failed to initiate shard registration", e));
        case Cancelled(_, deadline) =>
          err := Some(ContextErr(deadline));
        case Delivered(res) =>
          err := if res.Some? then Some(Wrapped("failed to register shard", res.value)) else None;
      }
    }

    /** `remove`: destroy the shard, then drop its index, then delete its
        block file, returning at the first error. */
    method Remove(root: DataHash, destroy: DagOutcome<Option<Error>>,
                  dropFault: Option<Error>, unlinkFault: Option<Error>) returns (err: Option<Error>)
      modifies this
      ensures (State(), err) == RemoveSpec(old(State()), root, destroy, dropFault, unlinkFault)
    {
      var key := KeyOf(root);
      var eff := DestroyShard(key, destroy);
      match eff {
        case Refused(e) =>
          return Some(Wrapped("failed to initiate shard destruction", e));
        case Cancelled(_, deadline) =>
          return Some(ContextErr(deadline));
        case Delivered(res) =>
          if res.Some? {
            return Some(Wrapped("failed to destroy shard", res.value));
          }
      }
      // a missing index (`!dropped`) is only logged
      var dropped, dropErr := DropIndex(key, dropFault);
      if dropErr.Some? {
        return Some(Wrapped("failed to drop index for " + key, dropErr.value));
      }
      var unlinkErr := RemoveFile(BlockPath(basepath, key), unlinkFault);
      if unlinkErr.Some? {
        return Some(Wrapped("failed to remove CAR file", unlinkErr.value));
      }
      err := None;
    }

    /** `getAccessor`: acquire the shard and wait for it. */
    method GetAccessor(key: Key, acquire: DagOutcome<Result<Accessor>>) returns (r: Result<Accessor>)
      ensures r == AccessorOf(registry, key, acquire)
      ensures r == Err(ErrNotFound) <==> key !in registry || (acquire.Refused? && Is(acquire.error, ErrShardUnknown))
    {
      AccessorNotFound(registry, key, acquire);
      var eff := AcquireShard(key, acquire);
      match eff {
        case Refused(e) =>
          if Is(e, ErrShardUnknown) {
            r := Err(ErrNotFound);
          } else {
            r := Err(Wrapped("failed to initialize shard acquisition", e));
          }
        case Delivered(res) =>
          if res.Err? {
            r := Err(Wrapped("failed to acquire shard", res.error));
          } else {
            r := res;
          }
        case Cancelled(_, deadline) =>
          r := Err(ContextErr(deadline));
      }
    }

    /** `getCachedAccessor`: serve a hit from the cache, otherwise acquire
        and cache what was acquired. */
    method GetCachedAccessor(key: Key, acquire: DagOutcome<Result<Accessor>>) returns (r: Result<Accessor>)
      modifies this`cache
      ensures (State(), r) == CachedAccessorSpec(old(State()), key, acquire)
    {
      if key in cache {
        return Ok(cache[key]);
      }
      r := GetAccessor(key, acquire);
      if r.Err? {
        return;
      }
      cache := cache[key := r.value];
    }

    /** `getDAH`: get the accessor, read the CAR header (its outcome is
        `header`), rebuild the header and check it hashes to `root`. */
    method GetDah(root: DataHash, acquire: DagOutcome<Result<Accessor>>, header: Result<CarHeader>,
                  hashOf: DataAvailabilityHeader -> seq<byte>) returns (r: Result<DataAvailabilityHeader>)
      modifies this`cache
      ensures (State(), r) == GetDahSpec(old(State()), root, acquire, header, hashOf)
    {
      var key := KeyOf(root);
      var accessor := GetCachedAccessor(key, acquire);
      if accessor.Err? {
        return Err(Wrapped("eds/store: failed to get accessor", accessor.error));
      }
      if header.Err? {
        return Err(Wrapped("eds/store: failed to read car header", header.error));
      }
      var dah := DahFromCarHeader(header.value);
      if hashOf(dah) != root {
        return Err(IntegrityMismatch(root));
      }
      r := Ok(dah);
    }

    /** `list`: decode every shard key, in whatever order the registry hands
        them out (`order`); the first key that is not Base16 ends it, with
        no partial result. */
    method List() returns (r: Result<seq<DataHash>>, ghost order: seq<Key>)
      ensures r.Ok? <==> forall k :: k in registry ==> DecodeString(k).Ok?
      ensures r.Ok? ==> forall k :: k in registry <==> k in order
      ensures r.Ok? ==> Distinct(order) && DecodedAs(order, r.value)
      ensures r.Err? ==> exists k :: k in registry && DecodeString(k) == Err(r.error)
    {
      var remaining := registry.Keys;
      var hashes: seq<DataHash> := [];
      order := [];
      while remaining != {}
        invariant remaining <= registry.Keys
        invariant forall i :: 0 <= i < |order| ==> order[i] in registry && order[i] !in remaining
        invariant forall k :: k in registry && k !in remaining ==> k in order
        invariant Distinct(order) && DecodedAs(order, hashes)
        decreases remaining
      {
        var k :| k in remaining;
        var hash := DecodeString(k);
        if hash.Err? {
          assert k in registry && DecodeString(k) == Err(hash.error);
          return Err(hash.error), order;
        }
        ListStep(order, hashes, k, hash.value);
        hashes := hashes + [hash.value];
        order := order + [k];
        remaining := remaining - {k};
      }
      r := Ok(hashes);
    }

    /** `Start`: once the dagstore starts, install the empty GC result and
        launch `gc` only when an interval is set. */
    method Start(startErr: Option<Error>) returns (err: Option<Error>)
      modifies this
      ensures (State(), err) == StartSpec(old(State()), startErr)
    {
      if startErr.Some? {
        return startErr;
      }
      lastGcResult := Some(map[]);
      gcRunning := gcInterval != 0;
      err := None;
    }

    /** `gc` over the wake-ups it sees: record each successful collection,
        return on a done context or on the first failed collection. The
        ticker needs a positive interval. */
    method Gc(ticks: seq<GcTick>) returns (consumed: nat)
      requires gcInterval != 0
      modifies this`lastGcResult, this`gcRunning
      ensures (lastGcResult, consumed, !gcRunning) == GcRun(ticks, old(lastGcResult))
    {
      var i := 0;
      var stopped := false;
      while i < |ticks| && !stopped
        invariant 0 <= i <= |ticks|
        invariant !stopped ==> (var rest := GcRun(ticks[i..], lastGcResult);
          GcRun(ticks, old(lastGcResult)) == (rest.0, rest.1 + i, rest.2))
        invariant stopped ==> GcRun(ticks, old(lastGcResult)) == (lastGcResult, i, true)
      {
        assert ticks[i..][1..] == ticks[i + 1..];
        match ticks[i] {
          case Done =>
            stopped := true;
          case Collected(res) =>
            if res.Err? {
              stopped := true;
            } else {
              lastGcResult := Some(res.value);
            }
        }
        i := i + 1;
      }
      gcRunning := !stopped;
      consumed := i;
    }
  }
}
