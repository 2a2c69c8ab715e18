/** The tier coordinator: the in-memory map, the disk store, the placement rule
    and the moves between tiers. An entry is named by its key and the tier flag
    `disk` (CacheEntry.diskStored); every disk access here succeeds. */
module StoreManagement {
  import opened CacheBasics
  import opened DiskStorage

  /** A cache's entries agree with the two tiers: every entry's value is in the
      tier its flag names (a disk value with no memory copy), memory holds the
      values of entries only, and the disk those of disk entries only. */
  ghost predicate Tiered<K, V>(flags: map<K, bool>, memory: map<K, V>, onDisk: map<K, V>)
  {
    && (forall k :: k in memory ==> k in flags)
    && (forall k :: k in onDisk ==> k in flags && flags[k])
    && (forall k :: k in flags ==> if flags[k] then k in onDisk && k !in memory else k in memory)
  }

  /** The key/value pairs such entries answer for. */
  ghost function View<K, V>(flags: map<K, bool>, memory: map<K, V>, onDisk: map<K, V>): map<K, V>
    requires forall k :: k in flags ==> if flags[k] then k in onDisk else k in memory
  {
    map k | k in flags :: if flags[k] then onDisk[k] else memory[k]
  }

  /** Switching one entry's tier keeps the entries tiered and answers the same. */
  lemma {:induction false} SwitchTier<K, V>(flags: map<K, bool>, memory: map<K, V>, onDisk: map<K, V>, k: K)
    requires Tiered(flags, memory, onDisk) && k in flags
    ensures var memory' := if flags[k] then memory[k := onDisk[k]] else memory - {k};
      var onDisk' := if flags[k] then onDisk - {k} else onDisk[k := memory[k]];
      && Tiered(flags[k := !flags[k]], memory', onDisk')
      && View(flags[k := !flags[k]], memory', onDisk') == View(flags, memory, onDisk)
  {
  }

  /** Dropping an entry together with its value drops exactly that key. */
  lemma {:induction false} DropTier<K, V>(flags: map<K, bool>, memory: map<K, V>, onDisk: map<K, V>, k: K)
    requires Tiered(flags, memory, onDisk) && k in flags
    ensures var memory' := if flags[k] then memory else memory - {k};
      var onDisk' := if flags[k] then onDisk - {k} else onDisk;
      && Tiered(flags - {k}, memory', onDisk')
      && View(flags - {k}, memory', onDisk') == View(flags, memory, onDisk) - {k}
  {
  }

  /** A new entry placed in the tier `toDisk` names answers with its value. */
  lemma {:induction false} AddTier<K, V>(flags: map<K, bool>, memory: map<K, V>, onDisk: map<K, V>, k: K, value: V, toDisk: bool)
    requires Tiered(flags, memory, onDisk) && k !in flags
    ensures var memory' := if toDisk then memory else memory[k := value];
      var onDisk' := if toDisk then onDisk[k := value] else onDisk;
      && Tiered(flags[k := toDisk], memory', onDisk')
      && View(flags[k := toDisk], memory', onDisk') == View(flags, memory, onDisk)[k := value]
  {
  }

  /** Overwriting an entry's value in its own tier changes the answer for that key only. */
  lemma {:induction false} UpdateTier<K, V>(flags: map<K, bool>, memory: map<K, V>, onDisk: map<K, V>, k: K, value: V)
    requires Tiered(flags, memory, onDisk) && k in flags
    ensures var memory' := if flags[k] then memory else memory[k := value];
      var onDisk' := if flags[k] then onDisk[k := value] else onDisk;
      && Tiered(flags, memory', onDisk')
      && View(flags, memory', onDisk') == View(flags, memory, onDisk)[k := value]
  {
  }

  class StoreManager<K(==,!new), V> {
    var memoryStore: map<K, V>
    const fileStore: DiskStore<K, V>
    /** The values the disk tier holds, by key: what reading each key's file yields. */
    ghost var onDisk: map<K, V>
    const maxMemorySize: int
    const maxDiskSize: int
    const diskEnabled: bool

    /** Distinct keys never share a file, `onDisk` is exactly what the files
        hold, the file counter counts those files, and with disk caching
        disabled there are none. */
    ghost predicate Valid()
      reads this, fileStore
    {
      && (forall a, b :: fileStore.hash(a) == fileStore.hash(b) ==> a == b)
      && fileStore.size == |onDisk.Keys|
      && (!diskEnabled ==> |onDisk| == 0)
      && (forall k {:trigger fileStore.Stored(k)} :: fileStore.Stored(k) == if k in onDisk then Some(onDisk[k]) else None)
    }

    constructor (maxMemorySize: int, maxDiskSize: int, diskEnabled: bool,
                 home: string, hash: K -> int, lengthOf: V -> nat)
      requires forall a, b :: hash(a) == hash(b) ==> a == b
      ensures Valid() && fresh(fileStore)
      ensures memoryStore == map[] && onDisk == map[] && fileStore.files == map[]
      ensures fileStore.size == 0 && fileStore.diskSize == 0
      ensures this.maxMemorySize == maxMemorySize && this.maxDiskSize == maxDiskSize
      ensures this.diskEnabled == diskEnabled
    {
      memoryStore := map[];
      onDisk := map[];
      fileStore := new DiskStore(home, hash, lengthOf);
      this.maxMemorySize := maxMemorySize;
      this.maxDiskSize := maxDiskSize;
      this.diskEnabled := diskEnabled;
    }

    /** What getValue answers for an entry: the value in the tier its flag names, or null. */
    ghost function Lookup(key: K, disk: bool): Option<V>
      reads this
    {
      if disk then (if key in onDisk then Some(onDisk[key]) else None)
      else if key in memoryStore then Some(memoryStore[key]) else None
    }

    /** The entry's value is where its flag says and in that tier only. */
    ghost predicate Holds(key: K, disk: bool)
      reads this
    {
      if disk then key in onDisk && key !in memoryStore
      else key in memoryStore && key !in onDisk
    }

    /** Number of values the two tiers account for. */
    function Count(): int
      reads this, fileStore
    {
      |memoryStore| + fileStore.size
    }

    /** isMemoryFull: once the memory map holds maxMemorySize values, put can no
        longer place a value in memory. */
    function IsMemoryFull(): (r: bool)
      reads this
      ensures r ==> !(|memoryStore| < maxMemorySize)
      ensures !r && |memoryStore| <= maxMemorySize ==> |memoryStore| < maxMemorySize
    {
      |memoryStore| == maxMemorySize
    }

    method GetValue(key: K, disk: bool) returns (r: Option<V>)
      requires Valid()
      ensures r == Lookup(key, disk)
      ensures r.Some? <==> (if disk then key in onDisk else key in memoryStore)
    {
      if disk {
        r := fileStore.GetValue(key, false);
      } else if key in memoryStore {
        r := Some(memoryStore[key]);
      } else {
        r := None;
      }
    }

    /** put: memory while it has room (answers false), else disk while the disk
        holds fewer than maxMemorySize values (answers true), else StoreExhausted.
        The value is that of a new entry, so no file holds it yet. */
    method Put(key: K, value: V) returns (r: Result<bool>)
      requires Valid() && key !in onDisk
      modifies this, fileStore
      ensures Valid()
      ensures r == Ok(false) <==> |old(memoryStore)| < maxMemorySize
      ensures r == Ok(true) <==>
        !(|old(memoryStore)| < maxMemorySize) && diskEnabled && old(fileStore.size) < maxMemorySize
      ensures r.Err? ==> r.error == StoreExhausted
      ensures r == Ok(false) ==> (memoryStore == old(memoryStore)[key := value] && onDisk == old(onDisk)
        && fileStore.files == old(fileStore.files) && fileStore.size == old(fileStore.size))
      ensures r == Ok(true) ==> (memoryStore == old(memoryStore) && onDisk == old(onDisk)[key := value]
        && fileStore.size == old(fileStore.size) + 1)
      ensures r.Err? ==> (memoryStore == old(memoryStore) && onDisk == old(onDisk)
        && fileStore.files == old(fileStore.files) && fileStore.size == old(fileStore.size))
      ensures r.Ok? ==> Lookup(key, r.value) == Some(value)
      ensures fileStore.diskLocation == old(fileStore.diskLocation)
    {
      if |memoryStore| < maxMemorySize {
        memoryStore := memoryStore[key := value];
        return Ok(false);
      }
      if diskEnabled && fileStore.size < maxMemorySize {
        fileStore.AddUpdate(key, value, true, false);
        onDisk := onDisk[key := value];
        return Ok(true);
      }
      return Err(StoreExhausted);
    }

    /** switchStore: moves the entry to the other tier and answers its new flag.
        Both engines move a value to disk only with disk caching enabled. */
    method SwitchStore(key: K, disk: bool) returns (r: bool)
      requires Valid() && Holds(key, disk) && (!disk ==> diskEnabled)
      modifies this, fileStore
      ensures Valid()
      ensures r == !disk
      ensures Holds(key, r) && Lookup(key, r) == old(Lookup(key, disk))
      ensures Count() == old(Count())
      ensures disk ==> (memoryStore == old(memoryStore)[key := old(onDisk)[key]]
        && onDisk == old(onDisk) - {key})
      ensures !disk ==> (memoryStore == old(memoryStore) - {key}
        && onDisk == old(onDisk)[key := old(memoryStore)[key]])
      ensures fileStore.diskLocation == old(fileStore.diskLocation)
    {
      if disk {
        r := MoveInMemory(key);
      } else {
        r := MoveToDisk(key);
      }
    }

    /** moveToDisk: the memory value is written to disk and dropped from memory. */
    method MoveToDisk(key: K) returns (r: bool)
      requires Valid() && Holds(key, false) && diskEnabled
      modifies this, fileStore
      ensures Valid()
      ensures r
      ensures memoryStore == old(memoryStore) - {key}
      ensures onDisk == old(onDisk)[key := old(memoryStore)[key]]
      ensures fileStore.size == old(fileStore.size) + 1
      ensures Holds(key, true) && Count() == old(Count())
      ensures fileStore.diskLocation == old(fileStore.diskLocation)
    {
      var value := memoryStore[key];
      memoryStore := memoryStore - {key};
      fileStore.AddUpdate(key, value, true, false);
      onDisk := onDisk[key := value];
      r := true;
    }

    /** moveInMemory: the disk value is read, its file deleted, and it goes to memory. */
    method MoveInMemory(key: K) returns (r: bool)
      requires Valid() && Holds(key, true)
      modifies this, fileStore
      ensures Valid()
      ensures !r
      ensures memoryStore == old(memoryStore)[key := old(onDisk)[key]]
      ensures onDisk == old(onDisk) - {key}
      ensures fileStore.size == old(fileStore.size) - 1
      ensures Holds(key, false) && Count() == old(Count())
      ensures fileStore.diskLocation == old(fileStore.diskLocation)
    {
      var value := fileStore.GetValue(key, false);
      fileStore.Remove(key, false);
      onDisk := onDisk - {key};
      memoryStore := memoryStore[key := value.value];
      r := false;
    }

    /** updateValue: the value is overwritten in the entry's own tier only; a
        disk entry's file is overwritten, not counted again. */
    method UpdateValue(key: K, disk: bool, value: V)
      requires Valid() && (disk ==> key in onDisk)
      modifies this, fileStore
      ensures Valid()
      ensures Lookup(key, disk) == Some(value)
      ensures disk ==> (memoryStore == old(memoryStore) && onDisk == old(onDisk)[key := value]
        && fileStore.size == old(fileStore.size))
      ensures !disk ==> (memoryStore == old(memoryStore)[key := value] && onDisk == old(onDisk)
        && fileStore.files == old(fileStore.files) && fileStore.size == old(fileStore.size))
      ensures fileStore.diskLocation == old(fileStore.diskLocation)
    {
      if disk {
        fileStore.AddUpdate(key, value, false, false);
        onDisk := onDisk[key := value];
      } else {
        memoryStore := memoryStore[key := value];
      }
    }

    /** remove: answers what getValue would have, then deletes the value from the
        entry's tier only. */
    method Remove(key: K, disk: bool) returns (r: Option<V>)
      requires Valid()
      modifies this, fileStore
      ensures Valid()
      ensures r == old(Lookup(key, disk))
      ensures Lookup(key, disk) == None
      ensures disk ==> (memoryStore == old(memoryStore) && onDisk == old(onDisk) - {key}
        && fileStore.size == (if r.Some? then old(fileStore.size) - 1 else old(fileStore.size)))
      ensures !disk ==> (memoryStore == old(memoryStore) - {key} && onDisk == old(onDisk)
        && fileStore.files == old(fileStore.files) && fileStore.size == old(fileStore.size))
      ensures fileStore.diskLocation == old(fileStore.diskLocation)
    {
      r := GetValue(key, disk);
      if disk {
        assert fileStore.Stored(key) == r;
        fileStore.Remove(key, false);
        onDisk := onDisk - {key};
      } else {
        memoryStore := memoryStore - {key};
      }
    }

    /** clear: the memory map is emptied, and so is the disk store when disk is enabled. */
    method Clear()
      requires Valid()
      modifies this, fileStore
      ensures Valid()
      ensures memoryStore == map[]
      ensures diskEnabled ==> onDisk == map[] && fileStore.size == 0
      ensures !diskEnabled ==> (onDisk == old(onDisk) && fileStore.files == old(fileStore.files)
        && fileStore.size == old(fileStore.size))
      ensures fileStore.diskLocation == old(fileStore.diskLocation)
    {
      if diskEnabled {
        fileStore.Clear();
        onDisk := map[];
      }
      memoryStore := map[];
    }
  }
}
