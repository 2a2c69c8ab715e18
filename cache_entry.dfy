/** A cache entry: a key bound to the flag `diskStored` that names its tier.
    Every access to the value is delegated to the entry's StoreManager. */
module CacheEntries {
  import opened CacheBasics
  import opened StoreManagement

  class CacheEntry<K(==,!new), V> {
    /** Fixed at construction: the entry never changes key. */
    const key: K
    var diskStored: bool
    const manager: StoreManager<K, V>

    constructor Bind(key: K, diskStored: bool, manager: StoreManager<K, V>)
      ensures this.key == key && this.diskStored == diskStored && this.manager == manager
    {
      this.key := key;
      this.diskStored := diskStored;
      this.manager := manager;
    }

    /** new CacheEntry(key, value, manager): the manager places the value and the
        entry records the tier it chose; a StoreExhausted from the manager
        propagates and no entry is made. */
    static method Create(key: K, value: V, manager: StoreManager<K, V>) returns (r: Result<CacheEntry<K, V>>)
      requires manager.Valid() && key !in manager.onDisk
      modifies manager, manager.fileStore
      ensures manager.Valid()
      ensures r.Ok? ==> fresh(r.value) && r.value.key == key && r.value.manager == manager
      ensures r.Ok? ==> r.value.diskStored == !(|old(manager.memoryStore)| < manager.maxMemorySize)
      ensures r.Ok? ==> manager.Lookup(key, r.value.diskStored) == Some(value)
      ensures r.Ok? && !r.value.diskStored ==> (manager.memoryStore == old(manager.memoryStore)[key := value]
        && manager.onDisk == old(manager.onDisk))
      ensures r.Ok? && r.value.diskStored ==> (manager.memoryStore == old(manager.memoryStore)
        && manager.onDisk == old(manager.onDisk)[key := value])
      ensures r.Err? <==> (!(|old(manager.memoryStore)| < manager.maxMemorySize)
        && !(manager.diskEnabled && old(manager.fileStore.size) < manager.maxMemorySize))
      ensures r.Err? ==> manager.memoryStore == old(manager.memoryStore) && manager.onDisk == old(manager.onDisk)
    {
      var placed := manager.Put(key, value);
      if placed.Ok? {
        var entry := new CacheEntry.Bind(key, placed.value, manager);
        r := Ok(entry);
      } else {
        r := Err(placed.error);
      }
    }

    /** updateValue: writes through to the current tier; the flag stays. */
    method UpdateValue(value: V)
      requires manager.Valid() && (diskStored ==> key in manager.onDisk)
      modifies manager, manager.fileStore
      ensures manager.Valid()
      ensures diskStored == old(diskStored)
      ensures manager.Lookup(key, diskStored) == Some(value)
      ensures diskStored ==> (manager.memoryStore == old(manager.memoryStore)
        && manager.onDisk == old(manager.onDisk)[key := value])
      ensures !diskStored ==> (manager.memoryStore == old(manager.memoryStore)[key := value]
        && manager.onDisk == old(manager.onDisk))
    {
      manager.UpdateValue(key, diskStored, value);
    }

    /** getValue: reads from the tier the flag names and changes nothing. */
    method GetValue() returns (r: Option<V>)
      requires manager.Valid()
      ensures r == manager.Lookup(key, diskStored)
      ensures r.Some? <==> if diskStored then key in manager.onDisk else key in manager.memoryStore
    {
      r := manager.GetValue(key, diskStored);
    }

    /** switchStore: the flag becomes the tier the manager moved the value to,
        which is the other one, and that flag is answered. */
    method SwitchStore() returns (r: bool)
      requires manager.Valid() && manager.Holds(key, diskStored) && (!diskStored ==> manager.diskEnabled)
      modifies this, manager, manager.fileStore
      ensures manager.Valid()
      ensures r == diskStored && diskStored == !old(diskStored)
      ensures manager.Holds(key, diskStored)
      ensures manager.Lookup(key, diskStored) == old(manager.Lookup(key, diskStored))
      ensures manager.Count() == old(manager.Count())
      ensures old(diskStored) ==> (manager.memoryStore == old(manager.memoryStore)[key := old(manager.onDisk)[key]]
        && manager.onDisk == old(manager.onDisk) - {key})
      ensures !old(diskStored) ==> (manager.memoryStore == old(manager.memoryStore) - {key}
        && manager.onDisk == old(manager.onDisk)[key := old(manager.memoryStore)[key]])
    {
      diskStored := manager.SwitchStore(key, diskStored);
      r := diskStored;
    }

    /** removeFromStore: deletes the value from the current tier and answers it. */
    method RemoveFromStore() returns (r: Option<V>)
      requires manager.Valid()
      modifies manager, manager.fileStore
      ensures manager.Valid()
      ensures diskStored == old(diskStored)
      ensures r == old(manager.Lookup(key, diskStored))
      ensures manager.Lookup(key, diskStored) == None
      ensures diskStored ==> (manager.memoryStore == old(manager.memoryStore)
        && manager.onDisk == old(manager.onDisk) - {key})
      ensures !diskStored ==> (manager.memoryStore == old(manager.memoryStore) - {key}
        && manager.onDisk == old(manager.onDisk))
    {
      r := manager.Remove(key, diskStored);
    }
  }
}
