/** The least-recently-used engine. The doubly linked list of nodes is the
    sequence `order`, least recent first and most recent last; the pointer
    leastRecentlyMemory is the index `marker` into it; the node map `cache` is
    `disk`, which gives each cached key the diskStored flag of its entry. The
    entries before the marker are on disk and the rest are in memory. */
module LruCaches {
  import opened CacheBasics
  import opened StoreManagement

  /** The layout of an LRU cache over the two tiers: the list holds each cached
      key once, the disk entries are exactly those before the marker, every
      entry's value is in the tier its flag names (Tiered). */
  ghost predicate Placed<K, V>(order: seq<K>, disk: map<K, bool>, marker: nat,
                                    memory: map<K, V>, onDisk: map<K, V>)
  {
    && Distinct(order)
    && |disk| == |order|
    && marker <= |order|
    && (forall i :: 0 <= i < |order| ==> order[i] in disk && disk[order[i]] == (i < marker))
    && Tiered(disk, memory, onDisk)
  }

  lemma {:induction false} SubsetCardinality<T>(a: set<T>, b: set<T>)
    requires a <= b
    ensures |a| <= |b|
  {
    if a != {} {
      var x :| x in a;
      SubsetCardinality(a - {x}, b - {x});
    }
  }

  /** Every key of the node map is a node of the list. */
  lemma {:induction false} Listed<K, V>(order: seq<K>, disk: map<K, bool>, marker: nat,
                     memory: map<K, V>, onDisk: map<K, V>, key: K)
    requires Placed(order, disk, marker, memory, onDisk) && key in disk
    ensures key in order
  {
    var listed := set x | x in order;
    DistinctCardinality(order);
    if key !in order {
      assert listed <= disk.Keys - {key};
      SubsetCardinality(listed, disk.Keys - {key});
      assert false;
    }
  }

  /** The memory tier holds exactly the entries from the marker on, so it has
      as many values as there are nodes from the marker on. */
  lemma {:induction false} MemoryCount<K, V>(order: seq<K>, disk: map<K, bool>, marker: nat,
                          memory: map<K, V>, onDisk: map<K, V>)
    requires Placed(order, disk, marker, memory, onDisk)
    ensures |memory| == |order| - marker
  {
    var tail := order[marker..];
    forall k | k in memory
      ensures k in tail
    {
      Listed(order, disk, marker, memory, onDisk, k);
      var i := IndexOf(order, k);
      assert tail[i - marker] == k;
    }
    forall k | k in tail
      ensures k in memory
    {
      var j :| 0 <= j < |tail| && tail[j] == k;
      assert order[marker + j] == k;
    }
    assert memory.Keys == set k | k in tail;
    DistinctCardinality(tail);
  }

  /** The list and the marker fix the node map: two layouts with the same list
      and marker give every key the same diskStored flag, so a contract on
      `order` and `marker` states the flags too. */
  lemma {:induction false} FlagsDetermined<K, V>(order: seq<K>, marker: nat,
                          disk: map<K, bool>, memory: map<K, V>, onDisk: map<K, V>,
                          disk': map<K, bool>, memory': map<K, V>, onDisk': map<K, V>)
    requires Placed(order, disk, marker, memory, onDisk)
    requires Placed(order, disk', marker, memory', onDisk')
    ensures disk == disk'
  {
    forall k | k in disk
      ensures k in disk' && disk'[k] == disk[k]
    {
      Listed(order, disk, marker, memory, onDisk, k);
      var i := IndexOf(order, k);
    }
    forall k | k in disk'
      ensures k in disk
    {
      Listed(order, disk', marker, memory', onDisk', k);
    }
  }

  /** demoteLeastRecentMemory's step: the entry at the marker goes to disk and
      the marker passes it; the cache answers the same. */
  lemma {:induction false} DemoteStep<K, V>(order: seq<K>, disk: map<K, bool>, marker: nat,
                         memory: map<K, V>, onDisk: map<K, V>)
    requires Placed(order, disk, marker, memory, onDisk) && marker < |order|
    ensures order[marker] in memory
    ensures var k := order[marker];
      && Placed(order, disk[k := true], marker + 1, memory - {k}, onDisk[k := memory[k]])
      && View(disk[k := true], memory - {k}, onDisk[k := memory[k]]) == View(disk, memory, onDisk)
  {
    var k := order[marker];
    forall i | 0 <= i < |order| && i != marker
      ensures order[i] != k
    {
    }
  }

  /** promoteLeastRecentMemory's step: the disk entry just before the marker
      comes back to memory and the marker moves onto it. */
  lemma {:induction false} PromoteStep<K, V>(order: seq<K>, disk: map<K, bool>, marker: nat,
                          memory: map<K, V>, onDisk: map<K, V>)
    requires Placed(order, disk, marker, memory, onDisk) && 0 < marker
    ensures order[marker - 1] in onDisk
    ensures var k := order[marker - 1];
      && Placed(order, disk[k := false], marker - 1, memory[k := onDisk[k]], onDisk - {k})
      && View(disk[k := false], memory[k := onDisk[k]], onDisk - {k}) == View(disk, memory, onDisk)
  {
    var k := order[marker - 1];
    forall i | 0 <= i < |order| && i != marker - 1
      ensures order[i] != k
    {
    }
  }

  /** A new key placed in memory at the most recent end. */
  lemma {:induction false} AppendStep<K, V>(order: seq<K>, disk: map<K, bool>, marker: nat,
                         memory: map<K, V>, onDisk: map<K, V>, key: K, value: V)
    requires Placed(order, disk, marker, memory, onDisk) && key !in disk
    ensures Placed(order + [key], disk[key := false], marker, memory[key := value], onDisk)
    ensures View(disk[key := false], memory[key := value], onDisk) == View(disk, memory, onDisk)[key := value]
  {
    var order' := order + [key];
    forall i, j | 0 <= i < j < |order'|
      ensures order'[i] != order'[j]
    {
      if j == |order| {
        assert order[i] in disk;
      }
    }
  }

  /** The node at `i` unlinked, its key dropped from the node map and its value
      from its tier; nodes after it close ranks. */
  lemma {:induction false} RemoveStep<K, V>(order: seq<K>, disk: map<K, bool>, marker: nat,
                         memory: map<K, V>, onDisk: map<K, V>, i: nat)
    requires Placed(order, disk, marker, memory, onDisk) && i < |order|
    ensures var key := order[i];
      var memory' := if disk[key] then memory else memory - {key};
      var onDisk' := if disk[key] then onDisk - {key} else onDisk;
      && Placed(RemoveAt(order, i), disk - {key}, if marker > i then marker - 1 else marker, memory', onDisk')
      && View(disk - {key}, memory', onDisk') == View(disk, memory, onDisk) - {key}
  {
    DistinctRemoveAt(order, i);
  }

  /** The node at `i` moved to the most recent end and its entry brought to
      memory; nodes after it close ranks. */
  lemma {:induction false} MoveStep<K, V>(order: seq<K>, disk: map<K, bool>, marker: nat,
                       memory: map<K, V>, onDisk: map<K, V>, i: nat)
    requires Placed(order, disk, marker, memory, onDisk) && i < |order|
    ensures var key := order[i];
      && (disk[key] ==> key in onDisk)
      && var memory' := if disk[key] then memory[key := onDisk[key]] else memory;
         var onDisk' := if disk[key] then onDisk - {key} else onDisk;
         && Placed(RemoveAt(order, i) + [key], disk[key := false],
                   if marker > i then marker - 1 else marker, memory', onDisk')
         && View(disk[key := false], memory', onDisk') == View(disk, memory, onDisk)
  {
    var key := order[i];
    DistinctRemoveAt(order, i);
    var order' := RemoveAt(order, i) + [key];
    forall a, b | 0 <= a < b < |order'|
      ensures order'[a] != order'[b]
    {
    }
  }

  /** An existing key's value overwritten in its own tier. */
  lemma {:induction false} UpdateStep<K, V>(order: seq<K>, disk: map<K, bool>, marker: nat,
                         memory: map<K, V>, onDisk: map<K, V>, key: K, value: V)
    requires Placed(order, disk, marker, memory, onDisk) && key in disk
    ensures var memory' := if disk[key] then memory else memory[key := value];
      var onDisk' := if disk[key] then onDisk[key := value] else onDisk;
      && Placed(order, disk, marker, memory', onDisk')
      && View(disk, memory', onDisk') == View(disk, memory, onDisk)[key := value]
  {
  }

  /** Moving the last of distinct keys to the end leaves the list as it was. */
  lemma {:induction false} EraseLast<K>(order: seq<K>)
    requires Distinct(order) && |order| > 0
    ensures Erase(order, order[|order| - 1]) + [order[|order| - 1]] == order
  {
    EraseRemoveAt(order, |order| - 1);
    assert RemoveAt(order, |order| - 1) == order[..|order| - 1];
  }

  class LruCache<K(==,!new), V> {
    var order: seq<K>
    var disk: map<K, bool>
    var marker: nat
    var size: int
    const store: StoreManager<K, V>
    const maxSize: int
    const updateExisting: bool

    /** The list, the node map and the two tiers agree (Placed), and with disk
        disabled nothing is before the marker. */
    ghost predicate Linked()
      reads this, store, store.fileStore
    {
      && store.Valid()
      && size == |order|
      && Placed(order, disk, marker, store.memoryStore, store.onDisk)
      && (!store.diskEnabled ==> marker == 0)
    }

    /** Linked, within both capacities, and the most recent entry in memory. */
    ghost predicate Valid()
      reads this, store, store.fileStore
    {
      && Linked()
      && 1 <= maxSize && size <= maxSize
      && 1 <= store.maxMemorySize && |store.memoryStore| <= store.maxMemorySize
      && (|order| > 0 ==> marker < |order|)
    }

    /** The key/value pairs the cache answers for. */
    ghost function Contents(): map<K, V>
      reads this, store
      requires Placed(order, disk, marker, store.memoryStore, store.onDisk)
    {
      View(disk, store.memoryStore, store.onDisk)
    }

    /** initializeStrategy: an empty list whose markers all point at one sentinel. */
    constructor (maxSize: int, updateExisting: bool, store: StoreManager<K, V>)
      requires store.Valid() && store.memoryStore == map[] && store.onDisk == map[]
      requires maxSize >= 1 && store.maxMemorySize >= 1
      ensures Valid() && Contents() == map[] && order == [] && size == 0
      ensures this.store == store && this.maxSize == maxSize && this.updateExisting == updateExisting
    {
      order := [];
      disk := map[];
      marker := 0;
      size := 0;
      this.store := store;
      this.maxSize := maxSize;
      this.updateExisting := updateExisting;
    }

    /** demoteLeastRecentMemory: with disk enabled and memory full, the entry at
        the marker goes to disk and the marker moves one step towards the most
        recent end; otherwise nothing happens. */
    method DemoteLeastRecentMemory()
      requires Valid()
      modifies this, store, store.fileStore
      ensures Linked() && order == old(order) && Contents() == old(Contents())
      ensures |store.memoryStore| <= store.maxMemorySize
      ensures old(store.diskEnabled && store.IsMemoryFull()) ==> (marker == old(marker) + 1
        && old(marker) < |order| && disk == old(disk)[order[old(marker)] := true]
        && |store.memoryStore| == old(|store.memoryStore|) - 1)
      ensures !old(store.diskEnabled && store.IsMemoryFull()) ==> (marker == old(marker)
        && disk == old(disk) && store.memoryStore == old(store.memoryStore) && store.onDisk == old(store.onDisk))
    {
      if store.diskEnabled && store.IsMemoryFull() {
        MemoryCount(order, disk, marker, store.memoryStore, store.onDisk);
        DemoteStep(order, disk, marker, store.memoryStore, store.onDisk);
        var k := order[marker];
        var moved := store.SwitchStore(k, disk[k]);
        disk := disk[k := moved];
        marker := marker + 1;
      }
    }

    /** promoteLeastRecentMemory: with disk enabled and a disk entry just before
        the marker, that entry comes back to memory and the marker moves onto it. */
    method PromoteLeastRecentMemory()
      requires Valid()
      modifies this, store, store.fileStore
      ensures Linked() && order == old(order) && Contents() == old(Contents())
      ensures old(store.diskEnabled && marker > 0) ==> (marker == old(marker) - 1
        && disk == old(disk)[order[marker] := false]
        && |store.memoryStore| == old(|store.memoryStore|) + 1)
      ensures !old(store.diskEnabled && marker > 0) ==> (marker == old(marker)
        && disk == old(disk) && store.memoryStore == old(store.memoryStore) && store.onDisk == old(store.onDisk))
    {
      if store.diskEnabled && marker > 0 && disk[order[marker - 1]] {
        PromoteStep(order, disk, marker, store.memoryStore, store.onDisk);
        var k := order[marker - 1];
        var moved := store.SwitchStore(k, true);
        disk := disk[k := moved];
        marker := marker - 1;
      }
    }

    /** Unlinks the node at `i`: its key leaves the node map, its value leaves
        its tier and is answered, and the nodes after it close ranks. Eviction
        in put (the least recent node) and remove both do this. */
    method Unlink(i: nat) returns (r: Option<V>)
      requires Linked() && i < |order|
      modifies this, store, store.fileStore
      ensures Linked() && order == RemoveAt(old(order), i) && size == old(size) - 1
      ensures disk == old(disk) - {old(order)[i]}
      ensures marker == if old(marker) > i then old(marker) - 1 else old(marker)
      ensures Contents() == old(Contents()) - {old(order)[i]}
      ensures r == Some(old(Contents())[old(order)[i]])
      ensures |store.memoryStore| == if old(disk[order[i]]) then old(|store.memoryStore|) else old(|store.memoryStore|) - 1
    {
      RemoveStep(order, disk, marker, store.memoryStore, store.onDisk, i);
      var key := order[i];
      r := store.Remove(key, disk[key]);
      Drop(i);
    }

    /** The list part of Unlink, once the value has left its tier: the node at
        `i` leaves the list and the node map. */
    method Drop(i: nat)
      requires i < |order| && size == |order| && store.Valid()
      requires Placed(RemoveAt(order, i), disk - {order[i]}, if marker > i then marker - 1 else marker,
        store.memoryStore, store.onDisk)
      requires !store.diskEnabled ==> marker == 0
      modifies this
      ensures Linked() && size == old(size) - 1
      ensures order == RemoveAt(old(order), i) && disk == old(disk) - {old(order)[i]}
      ensures marker == if old(marker) > i then old(marker) - 1 else old(marker)
    {
      disk := disk - {order[i]};
      order := RemoveAt(order, i);
      if marker > i {
        marker := marker - 1;
      }
      size := size - 1;
    }

    /** The placement step of put for a key not cached: the store places the
        value in memory and the node is linked at the most recent end; with
        memory full (which put allows only with disk disabled) the store throws
        StoreExhausted and nothing changes. */
    method Append(key: K, value: V) returns (r: Outcome)
      requires Linked() && key !in disk
      requires store.diskEnabled ==> |store.memoryStore| < store.maxMemorySize
      modifies this, store, store.fileStore
      ensures Linked()
      ensures r.Fail? <==> |old(store.memoryStore)| >= store.maxMemorySize
      ensures r.Fail? ==> (r.error == StoreExhausted && order == old(order) && disk == old(disk)
        && marker == old(marker) && store.memoryStore == old(store.memoryStore) && Contents() == old(Contents()))
      ensures r.Pass? ==> (order == old(order) + [key] && disk == old(disk)[key := false]
        && marker == old(marker) && |store.memoryStore| == old(|store.memoryStore|) + 1
        && Contents() == old(Contents())[key := value])
    {
      AppendStep(order, disk, marker, store.memoryStore, store.onDisk, key, value);
      var placed := store.Put(key, value);
      if placed.Err? {
        return Fail(placed.error);
      }
      Attach(key);
      r := Pass;
    }

    /** The list part of Append, once the value is in memory: the key becomes
        the most recent node. */
    method Attach(key: K)
      requires key !in disk && size == |order| && store.Valid()
      requires Placed(order + [key], disk[key := false], marker, store.memoryStore, store.onDisk)
      requires !store.diskEnabled ==> marker == 0
      modifies this
      ensures Linked() && size == old(size) + 1
      ensures order == old(order) + [key] && disk == old(disk)[key := false] && marker == old(marker)
    {
      order := order + [key];
      disk := disk[key := false];
      size := size + 1;
    }

    /** put: an existing key is updated in place (or left alone) without a change
        of recency; a new key evicts the least recent entry when the cache is
        full and becomes the most recent entry, in memory. With disk enabled put
        never fails; with disk disabled it fails exactly when the memory tier is
        still full after the eviction, and then the key is not added. */
    method Put(key: K, value: V) returns (r: Outcome)
      requires Valid()
      modifies this, store, store.fileStore
      ensures Valid()
      ensures old(key in disk) ==> (r == Pass && order == old(order) && marker == old(marker) && disk == old(disk)
        && Contents() == if updateExisting then old(Contents())[key := value] else old(Contents()))
      ensures !old(key in disk) ==>
        var m := old(marker) + (if old(store.diskEnabled && store.IsMemoryFull()) then 1 else 0);
        marker == if old(size) == maxSize && m > 0 then m - 1 else m
      ensures !old(key in disk) ==> (
        var survivors := if old(size) == maxSize then old(order)[1..] else old(order);
        var kept := if old(size) == maxSize then old(Contents()) - {old(order)[0]} else old(Contents());
        && (r.Fail? <==> !store.diskEnabled && |survivors| >= store.maxMemorySize)
        && (r.Fail? ==> r.error == StoreExhausted && order == survivors && Contents() == kept)
        && (r.Pass? ==> order == survivors + [key] && Contents() == kept[key := value] && key in disk && !disk[key]))
    {
      if key in disk {
        if updateExisting {
          UpdateStep(order, disk, marker, store.memoryStore, store.onDisk, key, value);
          store.UpdateValue(key, disk[key], value);
        }
        return Pass;
      }
      MakeRoom();
      r := Append(key, value);
    }

    /** The steps of put before a new key is linked: the least recent memory
        entry is demoted when memory is full, and the least recent node is
        evicted when the cache is full. Memory then has room unless disk is
        disabled, in which case it holds every entry. */
    method MakeRoom()
      requires Valid()
      modifies this, store, store.fileStore
      ensures Linked() && size < maxSize && disk.Keys <= old(disk).Keys
      ensures order == if old(size) == maxSize then old(order)[1..] else old(order)
      ensures Contents() == if old(size) == maxSize then old(Contents()) - {old(order)[0]} else old(Contents())
      ensures |store.memoryStore| <= store.maxMemorySize
      ensures store.diskEnabled ==> |store.memoryStore| < store.maxMemorySize
      ensures !store.diskEnabled ==> |store.memoryStore| == |order|
      ensures var m := old(marker) + (if old(store.diskEnabled && store.IsMemoryFull()) then 1 else 0);
        marker == if old(size) == maxSize && m > 0 then m - 1 else m
    {
      DemoteLeastRecentMemory();
      if size == maxSize {
        assert RemoveAt(order, 0) == order[1..];
        var _ := Unlink(0);
      }
      MemoryCount(order, disk, marker, store.memoryStore, store.onDisk);
    }

    /** The move step of get: the node at `i` is linked at the most recent end
        and its entry is brought to memory, for which memory has room. */
    method MoveToMostRecent(i: nat)
      requires Linked() && i < |order|
      requires disk[order[i]] ==> |store.memoryStore| < store.maxMemorySize
      modifies this, store, store.fileStore
      ensures Linked() && Contents() == old(Contents()) && size == old(size)
      ensures order == RemoveAt(old(order), i) + [old(order)[i]]
      ensures disk == old(disk)[old(order)[i] := false]
      ensures marker == if old(marker) > i then old(marker) - 1 else old(marker)
      ensures |store.memoryStore| == if old(disk[order[i]]) then old(|store.memoryStore|) + 1 else old(|store.memoryStore|)
    {
      MoveStep(order, disk, marker, store.memoryStore, store.onDisk, i);
      var key := order[i];
      var flag := disk[key];
      if marker > i {
        marker := marker - 1;
      }
      order := RemoveAt(order, i) + [key];
      if flag {
        var moved := store.SwitchStore(key, flag);
        disk := disk[key := moved];
      } else {
        assert disk[key := false] == disk;
      }
    }

    /** get: a miss answers null and changes nothing; a hit answers the key's
        value, makes it the most recent entry and brings it to memory (a disk
        hit first demotes the least recent memory entry when memory is full).
        The cache answers the same for every key afterwards. */
    method Get(key: K) returns (r: Option<V>)
      requires Valid()
      modifies this, store, store.fileStore
      ensures Valid() && Contents() == old(Contents()) && size == old(size)
      ensures key !in old(disk) ==> (r == None && order == old(order) && disk == old(disk) && marker == old(marker))
      ensures key in old(disk) ==> (r == Some(old(Contents())[key]) && order == Erase(old(order), key) + [key]
        && !disk[key])
      ensures key in old(disk) ==>
        marker == if old(disk)[key] then old(marker) - 1 + (if old(store.IsMemoryFull()) then 1 else 0) else old(marker)
    {
      if key !in disk {
        return None;
      }
      Listed(order, disk, marker, store.memoryStore, store.onDisk, key);
      var i := IndexOf(order, key);
      if i == |order| - 1 {
        r := store.GetValue(key, disk[key]);
        EraseLast(order);
        return;
      }
      EraseRemoveAt(order, i);
      Refresh(i);
      r := store.GetValue(key, disk[key]);
    }

    /** The reordering of a get hit on the node at `i`, which is not the most
        recent: a hit on the least recent node while it is on disk, or any
        other disk hit with disk enabled, first demotes; then the node moves to
        the most recent end, in memory. */
    method Refresh(i: nat)
      requires Valid() && i < |order| - 1
      modifies this, store, store.fileStore
      ensures Valid() && Contents() == old(Contents()) && size == old(size)
      ensures order == RemoveAt(old(order), i) + [old(order)[i]]
      ensures old(order)[i] in disk && !disk[old(order)[i]]
      ensures marker == if old(disk)[old(order)[i]] then old(marker) - 1 + (if old(store.IsMemoryFull()) then 1 else 0) else old(marker)
    {
      if i == 0 {
        if marker != 0 {
          DemoteLeastRecentMemory();
        }
      } else if store.diskEnabled && disk[order[i]] {
        DemoteLeastRecentMemory();
      }
      MoveToMostRecent(i);
    }

    /** remove: a miss answers null and changes nothing; a hit unlinks the node,
        deletes the value from its tier and answers it. Removing a memory entry
        first brings the disk entry just before the marker back to memory. */
    method Remove(key: K) returns (r: Option<V>)
      requires Valid()
      modifies this, store, store.fileStore
      ensures Valid() && Contents() == old(Contents()) - {key}
      ensures key !in old(disk) ==> (r == None && order == old(order) && size == old(size) && marker == old(marker))
      ensures key in old(disk) ==> marker == if old(marker) > 0 then old(marker) - 1 else old(marker)
      ensures key in old(disk) ==> (r == Some(old(Contents())[key]) && order == Erase(old(order), key)
        && size == old(size) - 1)
      ensures old(key in disk && !disk[key] && store.diskEnabled && marker > 0) ==>
        |store.memoryStore| == old(|store.memoryStore|)
    {
      if key !in disk {
        return None;
      }
      Listed(order, disk, marker, store.memoryStore, store.onDisk, key);
      var i := IndexOf(order, key);
      EraseRemoveAt(order, i);
      r := RemoveNode(i);
    }

    /** The hit path of remove for the node at `i`. */
    method RemoveNode(i: nat) returns (r: Option<V>)
      requires Valid() && i < |order|
      modifies this, store, store.fileStore
      ensures Valid() && Contents() == old(Contents()) - {old(order)[i]}
      ensures r == Some(old(Contents())[old(order)[i]])
      ensures order == RemoveAt(old(order), i) && size == old(size) - 1
      ensures marker == if old(marker) > 0 then old(marker) - 1 else old(marker)
      ensures old(!disk[order[i]] && store.diskEnabled && marker > 0) ==>
        |store.memoryStore| == old(|store.memoryStore|)
    {
      MemoryCount(order, disk, marker, store.memoryStore, store.onDisk);
      if !disk[order[i]] {
        PromoteLeastRecentMemory();
      }
      r := Unlink(i);
      MemoryCount(order, disk, marker, store.memoryStore, store.onDisk);
    }

    /** containsKey: whether the node map has the key. */
    function ContainsKey(key: K): (r: bool)
      reads this, store
      requires Placed(order, disk, marker, store.memoryStore, store.onDisk)
      ensures r <==> key in Contents()
    {
      key in disk
    }

    /** isEmpty: whether the node map is empty. */
    function IsEmpty(): (r: bool)
      reads this, store
      requires Placed(order, disk, marker, store.memoryStore, store.onDisk)
      ensures r <==> Contents() == map[]
    {
      assert Contents().Keys == disk.Keys;
      |disk| == 0
    }

    /** The number of cached entries. */
    function Size(): (r: int)
      reads this, store, store.fileStore
      requires Linked()
      ensures r == |Contents()|
    {
      assert Contents().Keys == disk.Keys;
      size
    }

    /** clear: both tiers and the node map are emptied and the list starts over. */
    method Clear()
      requires Valid()
      modifies this, store, store.fileStore
      ensures Valid() && Contents() == map[] && order == [] && size == 0
    {
      store.Clear();
      disk := map[];
      order := [];
      marker := 0;
      size := 0;
    }
  }
}
