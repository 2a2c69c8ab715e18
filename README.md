# jcache core in Dafny

jcache is a two-tier key/value cache. Values live in a bounded in-memory map
and, when disk caching is enabled, spill over into one file per key on disk.
Two eviction engines sit on top of the tiers:

- **LRU** keeps a doubly linked recency list. A pointer, `leastRecentlyMemory`,
  splits it into a disk prefix and a memory suffix.
- **LFU** groups keys into buckets by access count. Within a bucket, keys keep
  their insertion order.

Both engines go through a `StoreManager`, which places each value in memory
while memory has room and on disk otherwise. Each key has a `CacheEntry`,
which records which tier holds the key's value. The manager uses a
`DiskStore` that names each file after the key's hash. A `CacheBuilder`
collects the settings a cache is created with.

The model has one module per source file:

- `CacheBasics`: the defaults of `CacheDefaults`, the exceptions as
  `Option`/`Result`/`Outcome`, and facts about sequences of distinct keys.
- `DiskStorage` (`DiskStore.java`): the file system is a map from path to
  file contents. Whether a write, read or delete succeeds is a parameter.
  `hashCode` and the serialized length are functions fixed at construction.
- `StoreManagement` (`StoreManager.java`): the memory tier is a map. The
  disk tier is the `DiskStore`, mirrored by a ghost map `onDisk` of what its
  files hold.
- `CacheEntries` (`CacheEntry.java`): an entry is its key, its
  `diskStored` flag and its manager.
- `LruCaches` (`LRUCache.java`): the recency list is a sequence of keys.
  `leastRecentlyMemory` is an index `marker` into it; the entries before the
  marker are exactly the disk entries.
- `LruLinks` (`LRUCache.java`): the list's pointers as the code sets them,
  with the nodes held in an indexed store. It follows put (demotion,
  eviction, placement and linking) and remove step by step, to exhibit the
  self-loop of the first node and the two null dereferences under
  "## Findings".
- `LfuCaches` (`LFUCache.java`): the frequency map is a sequence of buckets,
  and bucket `g` holds the keys with count `g` in insertion order. Each scan
  loop of the source is a method proved equal to a function that states
  which key it picks. The class uses those methods.
- `CacheBuilding` (`CacheBuilder.java`): the builder is a class, and its
  setters update the builder's own fields.

Every engine method keeps a validity invariant:

- the node map, the flags and the two tiers agree;
- the list or buckets hold each cached key once;
- the counter equals the number of entries;
- the capacities are respected.

Every engine method also states its effect on `Contents()`, the key/value
pairs the cache answers for.

`StoreManager.put` places a value on disk only while the disk's file count
is below `maxMemorySize` (StoreManager.java:64), not below `maxDiskSize`. The
model follows this code. Both fields default to the same constant.

## Model

| member | source | states |
|---|---|---|
| DiskStorage.NatDecimalRoundTrip | src/main/java/com/sbiz/cache/utils/DiskStore.java:85-89 | reading back the decimal digits that name a file gives the hash code they were written from |
| DiskStorage.IntDecimalRoundTrip | src/main/java/com/sbiz/cache/utils/DiskStore.java:85-89 | the same round trip for negative hash codes, written with a leading minus sign |
| DiskStorage.DecimalInjective | src/main/java/com/sbiz/cache/utils/DiskStore.java:85-89 | two hash codes with the same decimal text are equal |
| DiskStorage.LastIndexOf | src/main/java/com/sbiz/cache/utils/DiskStore.java:92 | lastIndexOf: the answer is -1 or an occurrence of the character, and no occurrence follows it |
| DiskStorage.NormalizeLocation | src/main/java/com/sbiz/cache/utils/DiskStore.java:91-95 | a location that does not end with the separator gets one appended; any other location is kept as it is |
| DiskStorage.NormalizeIdempotent | src/main/java/com/sbiz/cache/utils/DiskStore.java:91-95 | normalizing a normalized location changes nothing |
| DiskStorage.DiskStore.constructor | src/main/java/com/sbiz/cache/utils/DiskStore.java:35-39 | no files, both counters 0, location is the default location followed by `.jcache` and a separator |
| DiskStorage.DiskStore.FileName | src/main/java/com/sbiz/cache/utils/DiskStore.java:85-89 | a key's file is the location followed by the decimal hash code, strictly longer than the location |
| DiskStorage.DiskStore.FileNameInjective | src/main/java/com/sbiz/cache/utils/DiskStore.java:85-89 | two keys share a file exactly when their hash codes are equal |
| DiskStorage.DiskStore.SetDiskLocation | src/main/java/com/sbiz/cache/utils/DiskStore.java:91-95 | the location becomes the normalized argument; the files and counters are unchanged |
| DiskStorage.DiskStore.Remove | src/main/java/com/sbiz/cache/utils/DiskStore.java:41-48 | a successful delete removes the key's file, decrements `size` and subtracts the file's length from `diskSize`; a failed or missing delete changes nothing; the files of keys with other hash codes are unchanged |
| DiskStorage.DiskStore.Add | src/main/java/com/sbiz/cache/utils/DiskStore.java:50-64 | a successful write (over)writes the key's file, increments `size` and adds the value's length to `diskSize`; a failed write changes nothing; other keys are unchanged |
| DiskStorage.DiskStore.AddUpdate | src/main/java/com/sbiz/cache/utils/StoreManager.java:90-116 | the addUpdate that StoreManager calls: the key's file holds the value; a new file (isNew) counts one more, an overwrite keeps the file count and replaces the old length; files of other hash codes are unchanged |
| DiskStorage.DiskStore.GetValue | src/main/java/com/sbiz/cache/utils/DiskStore.java:67-79 | answers the value in the key's file, or null when there is no file or the read fails |
| DiskStorage.DiskStore.Clear | src/main/java/com/sbiz/cache/utils/StoreManager.java:121-125 | the clear that StoreManager calls: every file under the location is deleted, other files are kept, and both counters restart at 0 |
| DiskStorage.AddThenGet | src/main/java/com/sbiz/cache/utils/DiskStore.java:50-79 | a successful write followed by a successful read of the same key gives back the written value |
| StoreManagement.SwitchTier | src/main/java/com/sbiz/cache/utils/StoreManager.java:79-106 | moving a value between tiers and flipping its flag keeps the tiers consistent with the flags and keeps the answer for every key |
| StoreManagement.DropTier | src/main/java/com/sbiz/cache/utils/StoreManager.java:184-192 | deleting a key from the tier its flag names, together with its flag, removes exactly that key from the answers |
| StoreManagement.AddTier | src/main/java/com/sbiz/cache/utils/StoreManager.java:55-73 | placing a new key in either tier, with a matching flag, adds exactly that key/value pair to the answers |
| StoreManagement.UpdateTier | src/main/java/com/sbiz/cache/utils/StoreManager.java:111-116 | overwriting a key in the tier its flag names changes only that key's answer |
| StoreManagement.StoreManager.constructor | src/main/java/com/sbiz/cache/utils/StoreManager.java:34-38 | both tiers are empty and the capacities and disk switch are those given |
| StoreManagement.StoreManager.GetValue | src/main/java/com/sbiz/cache/utils/StoreManager.java:43-48 | answers the value from the tier the flag names, and null exactly when that tier does not hold the key |
| StoreManagement.StoreManager.Put | src/main/java/com/sbiz/cache/utils/StoreManager.java:55-73 | memory is used exactly when it has room (answer false); otherwise the disk, when it is enabled and holds fewer than `maxMemorySize` files (answer true); otherwise StoreExhausted and nothing changes; the chosen tier then holds the value, for a key with no file yet |
| StoreManagement.StoreManager.SwitchStore | src/main/java/com/sbiz/cache/utils/StoreManager.java:79-84 | the value moves to the other tier (to disk only when disk is enabled), the answer is the new flag, the value is kept and the total count is unchanged |
| StoreManagement.StoreManager.MoveToDisk | src/main/java/com/sbiz/cache/utils/StoreManager.java:90-95 | with disk enabled, the memory value moves to disk, one more file exists, and the answer is true |
| StoreManagement.StoreManager.MoveInMemory | src/main/java/com/sbiz/cache/utils/StoreManager.java:101-106 | the disk value moves to memory, its file is deleted, and the answer is false |
| StoreManagement.StoreManager.UpdateValue | src/main/java/com/sbiz/cache/utils/StoreManager.java:111-116 | the tier the flag names now holds the new value and the other tier is unchanged; a disk value overwrites its file (`addUpdate` with isNew false), so the file count stays equal to the number of disk entries |
| StoreManagement.StoreManager.IsMemoryFull | src/main/java/com/sbiz/cache/utils/StoreManager.java:199-201 | a full memory has no room for put; a memory within its bound that is not full has room |
| StoreManagement.StoreManager.Remove | src/main/java/com/sbiz/cache/utils/StoreManager.java:184-192 | answers what getValue would have answered, and the key is then gone from the tier its flag names |
| StoreManagement.StoreManager.Clear | src/main/java/com/sbiz/cache/utils/StoreManager.java:121-125 | memory is emptied; the disk is emptied only when disk caching is enabled |
| CacheEntries.CacheEntry.Bind | src/main/java/com/sbiz/cache/utils/CacheEntry.java:20-24 | binds the key, the flag and the manager |
| CacheEntries.CacheEntry.Create | src/main/java/com/sbiz/cache/utils/CacheEntry.java:20-24 | the manager places the value and the entry records the tier it chose; on StoreExhausted no entry is made and the tiers are unchanged |
| CacheEntries.CacheEntry.UpdateValue | src/main/java/com/sbiz/cache/utils/CacheEntry.java:26-28 | the entry's tier now holds the new value; the flag is unchanged |
| CacheEntries.CacheEntry.GetValue | src/main/java/com/sbiz/cache/utils/CacheEntry.java:33-35 | answers the value from the entry's tier, or null when that tier lacks it |
| CacheEntries.CacheEntry.SwitchStore | src/main/java/com/sbiz/cache/utils/CacheEntry.java:40-43 | the flag flips, the answer is the new flag, and the value is now held by the other tier |
| CacheEntries.CacheEntry.RemoveFromStore | src/main/java/com/sbiz/cache/utils/CacheEntry.java:45-48 | answers the stored value and deletes it from the entry's tier |
| LruCaches.FlagsDetermined | src/main/java/com/sbiz/cache/implementations/LRUCache.java:176-195 | two layouts with the same recency list and marker have the same disk flags: the marker alone decides which entries are on disk |
| LruCaches.Listed | src/main/java/com/sbiz/cache/implementations/LRUCache.java:114-117 | a key of the node map occurs exactly once in the recency list |
| LruCaches.MemoryCount | src/main/java/com/sbiz/cache/implementations/LRUCache.java:176-195 | the memory tier holds exactly the entries from the marker on, so its size is the list length minus the marker |
| LruCaches.DemoteStep | src/main/java/com/sbiz/cache/implementations/LRUCache.java:176-182 | moving the entry at the marker to disk and advancing the marker keeps the list, flags and tiers consistent and the answers unchanged |
| LruCaches.PromoteStep | src/main/java/com/sbiz/cache/implementations/LRUCache.java:185-195 | bringing the disk entry before the marker to memory and moving the marker back onto it keeps everything consistent |
| LruCaches.AppendStep | src/main/java/com/sbiz/cache/implementations/LRUCache.java:88-94 | a new memory entry linked at the most recent end keeps everything consistent and adds its pair to the answers |
| LruCaches.RemoveStep | src/main/java/com/sbiz/cache/implementations/LRUCache.java:201-238 | unlinking any node and deleting its value keeps everything consistent and removes its pair from the answers |
| LruCaches.MoveStep | src/main/java/com/sbiz/cache/implementations/LRUCache.java:124-166 | moving a node to the most recent end and its value to memory keeps everything consistent and the answers unchanged |
| LruCaches.UpdateStep | src/main/java/com/sbiz/cache/implementations/LRUCache.java:61-64 | overwriting a cached key's value in its tier changes only that key's answer |
| LruCaches.LruCache.constructor | src/main/java/com/sbiz/cache/implementations/LRUCache.java:48-55 | an empty list and node map, answering nothing |
| LruCaches.LruCache.DemoteLeastRecentMemory | src/main/java/com/sbiz/cache/implementations/LRUCache.java:176-182 | with disk enabled and memory full, the least recent memory entry goes to disk and the marker advances; otherwise nothing changes; the answers never change |
| LruCaches.LruCache.PromoteLeastRecentMemory | src/main/java/com/sbiz/cache/implementations/LRUCache.java:185-195 | with disk enabled and a disk entry just before the marker, that entry comes to memory and the marker moves back; otherwise nothing changes |
| LruCaches.LruCache.Unlink | src/main/java/com/sbiz/cache/implementations/LRUCache.java:220-238 | the node leaves the list, the node map and its tier; its value is answered; the marker shifts when the node was before it |
| LruCaches.LruCache.Drop | src/main/java/com/sbiz/cache/implementations/LRUCache.java:220-237 | the node-map part of unlinking: the key leaves the list and the node map, the counter goes down by one, and the marker moves back when the node was before it |
| LruCaches.LruCache.Append | src/main/java/com/sbiz/cache/implementations/LRUCache.java:87-103 | the store places the value in memory and the key becomes the most recent entry; when memory is full, StoreExhausted and nothing changes |
| LruCaches.LruCache.Attach | src/main/java/com/sbiz/cache/implementations/LRUCache.java:90-103 | the node-map part of linking: the new key becomes the most recent memory entry, the counter goes up by one, and the marker stays |
| LruCaches.LruCache.MakeRoom | src/main/java/com/sbiz/cache/implementations/LRUCache.java:67-85 | the demotion and eviction that precede linking: a full cache loses its least recent entry (and its answer), leaving room below maxSize; memory has room whenever disk is enabled, and holds every entry when it is not; the marker moves up by one when disk is enabled and memory was full, and back by one when the evicted entry was before it |
| LruCaches.LruCache.Put | src/main/java/com/sbiz/cache/implementations/LRUCache.java:57-108 | an existing key keeps its place and is updated exactly when updateExisting; a new key evicts the least recent entry when the cache is full and becomes the most recent entry, in memory; it fails (StoreExhausted) exactly when disk is disabled and memory is still full; an existing key keeps the marker and the flags, and a new key moves the marker as MakeRoom does |
| LruCaches.LruCache.MoveToMostRecent | src/main/java/com/sbiz/cache/implementations/LRUCache.java:124-166 | the node moves to the most recent end and its value to memory; the answers are unchanged |
| LruCaches.LruCache.Refresh | src/main/java/com/sbiz/cache/implementations/LRUCache.java:119-166 | the hit path of get for a node that is not the most recent: the node moves to the most recent end as a memory entry, and the answers and the counter are unchanged; the marker goes back by one for a disk node, and forward again by one when memory was full |
| LruCaches.LruCache.Get | src/main/java/com/sbiz/cache/implementations/LRUCache.java:110-173 | a miss answers null and changes nothing; a hit answers the key's value, makes it the most recent entry and leaves it in memory, and the cache answers the same for every key; the marker is unchanged for a memory hit, and for a disk hit goes back by one and forward by one when memory was full |
| LruCaches.LruCache.RemoveNode | src/main/java/com/sbiz/cache/implementations/LRUCache.java:209-243 | the hit path of remove: the node leaves the list and its pair the answers, its value is answered, and the counter goes down by one; removing a memory entry with a disk entry before the marker keeps the memory size; the marker goes back by one unless it is at the start |
| LruCaches.LruCache.Remove | src/main/java/com/sbiz/cache/implementations/LRUCache.java:201-244 | a miss answers null; a hit answers the value, erases the key from the list and the answers, and decrements the counter; removing a memory entry with a disk entry before the marker keeps the memory tier's size; a miss keeps the marker, and a hit moves it back by one unless it is at the start |
| LruCaches.LruCache.ContainsKey | src/main/java/com/sbiz/cache/implementations/LRUCache.java:197-199 | true exactly when the cache answers for the key |
| LruCaches.LruCache.IsEmpty | src/main/java/com/sbiz/cache/implementations/LRUCache.java:246-248 | true exactly when the cache answers for no key |
| LruCaches.LruCache.Size | src/main/java/com/sbiz/cache/Cache.java:18 | the counter equals the number of pairs the cache answers for |
| LruCaches.LruCache.Clear | src/main/java/com/sbiz/cache/implementations/LRUCache.java:250-260 | the cache answers nothing, the list starts over and the counter is 0 |
| LruLinks.Initial | src/main/java/com/sbiz/cache/implementations/LRUCache.java:48-55 | one sentinel node with a null entry, all three markers on it, and both tiers empty |
| LruLinks.Switch | src/main/java/com/sbiz/cache/utils/StoreManager.java:79-106 | switchStore on a node: its flag flips and its key moves to the other tier; every other node is unchanged |
| LruLinks.DemoteAsWritten | src/main/java/com/sbiz/cache/implementations/LRUCache.java:176-182 | with disk enabled and memory full, the marked node changes tiers and the marker moves to that node's `next`; it throws (NullDereference) exactly when the marked node is missing or the sentinel |
| LruLinks.EvictAsWritten | src/main/java/com/sbiz/cache/implementations/LRUCache.java:74-85 | a full cache drops the least recent key from the node map and its tier, the least recent pointer moves to its `next`, and the counter goes down by one; it throws exactly when that node is the sentinel or has no `next` |
| LruLinks.PlaceAsWritten | src/main/java/com/sbiz/cache/utils/StoreManager.java:55-73 | memory when it has room, else disk when it is enabled and has room, else StoreExhausted |
| LruLinks.LinkAsWritten | src/main/java/com/sbiz/cache/implementations/LRUCache.java:88-103 | the new node's previous is the old most recent node and the new node becomes the most recent in the tier placement chose; the first node also becomes the least recent and least recent memory node, and its `next` points to itself |
| LruLinks.PutAsWritten | src/main/java/com/sbiz/cache/implementations/LRUCache.java:57-103 | put as written: an existing key changes no pointer; a new key is demoted, evicted, placed and linked, and becomes the most recent node in the tier placement chose; the only failures are a null dereference or StoreExhausted |
| LruLinks.PromoteAsWritten | src/main/java/com/sbiz/cache/implementations/LRUCache.java:185-195 | throws (NullDereference) exactly when disk is enabled and the marker is missing or the node before it is the sentinel; a disk node before the marker comes to memory and takes the marker |
| LruLinks.UnlinkAsWritten | src/main/java/com/sbiz/cache/implementations/LRUCache.java:220-236 | the three unlinking branches, each throwing when it writes through a null neighbour |
| LruLinks.RemoveAsWritten | src/main/java/com/sbiz/cache/implementations/LRUCache.java:201-244 | when remove does not throw, the key leaves the node map and the tier its flag names, and the counter goes down by one for a hit |
| LruLinks.SelfLoopFirstPut | src/main/java/com/sbiz/cache/implementations/LRUCache.java:97-102 | the first put links node 1 to itself and puts all markers on it |
| LruLinks.SelfLoopSecondDemotion | src/main/java/com/sbiz/cache/implementations/LRUCache.java:176-181 | the demotion before the second put sends node 1 to disk and, through the self-loop, leaves the marker on node 1 |
| LruLinks.SelfLoopSecondPut | src/main/java/com/sbiz/cache/implementations/LRUCache.java:57-103 | the second put with maxMemorySize 1 lands in memory next to the disk entry 1 |
| LruLinks.SelfLoopThirdDemotion | src/main/java/com/sbiz/cache/implementations/LRUCache.java:176-181 | the demotion before the third put switches node 1 back to memory, which then holds two entries |
| LruLinks.SelfLoopThirdPut | src/main/java/com/sbiz/cache/utils/StoreManager.java:58-66 | the third put finds memory over full and places key 3 on disk |
| LruLinks.SelfLoopPutAsWritten | src/main/java/com/sbiz/cache/implementations/LRUCache.java:97-102 | disk enabled, maxMemorySize 1, maxSize 3: put 1, 2, 3 leaves memory holding 1 and 2 and puts 3 on disk |
| LruLinks.RemoveOnlyEntryAsWritten | src/main/java/com/sbiz/cache/implementations/LRUCache.java:220-227 | with disk disabled, put 1, put 2, remove 1, remove 2 throws on the last remove |
| LruLinks.RemoveFirstEntryAsWritten | src/main/java/com/sbiz/cache/implementations/LRUCache.java:185-195 | with disk enabled, put 1 then remove 1 throws |
| LfuCaches.Counted | src/main/java/com/sbiz/cache/implementations/LFUCache.java:131 | counting an access keeps the set of keys |
| LfuCaches.JoinStep | src/main/java/com/sbiz/cache/implementations/LFUCache.java:133-138 | a key joining the end of bucket g (created when missing) is indexed at count g |
| LfuCaches.InsertStep | src/main/java/com/sbiz/cache/implementations/LFUCache.java:67-78 | a new key joining bucket 0 is indexed at count 0 |
| LfuCaches.DropStep | src/main/java/com/sbiz/cache/implementations/LFUCache.java:238 | a key taken out of its bucket leaves the buckets indexing the other keys |
| LfuCaches.BumpStep | src/main/java/com/sbiz/cache/implementations/LFUCache.java:127-138 | moving a key from bucket f to the end of bucket f+1 indexes it at its counted frequency |
| LfuCaches.LowestNonEmpty | src/main/java/com/sbiz/cache/implementations/LFUCache.java:93-114 | the first non-empty bucket from a given count on, with every bucket before it empty |
| LfuCaches.VictimLeastFrequent | src/main/java/com/sbiz/cache/implementations/LFUCache.java:89-116 | in a non-empty cache the victim exists, has the lowest count of all entries, and is the last inserted key of its bucket |
| LfuCaches.FindVictim | src/main/java/com/sbiz/cache/implementations/LFUCache.java:93-114 | the eviction loop picks the victim |
| LfuCaches.LastInserted | src/main/java/com/sbiz/cache/implementations/LFUCache.java:98-106 | the iterator walk ends at the last inserted key of the bucket |
| LfuCaches.LastOfFirstRunPick | src/main/java/com/sbiz/cache/implementations/LFUCache.java:155-170 | the pick is the last entry of the bucket's first run of memory entries, none exactly when every entry is on disk, and no other pick fits that description |
| LfuCaches.LastMemoryOfFirstRun | src/main/java/com/sbiz/cache/implementations/LFUCache.java:155-170 | the inner scan of get answers that pick |
| LfuCaches.NearestNonEmpty | src/main/java/com/sbiz/cache/implementations/LFUCache.java:150-153 | the nearest non-empty bucket at or below a count, every bucket between being empty |
| LfuCaches.Demotion | src/main/java/com/sbiz/cache/implementations/LFUCache.java:141-181 | a demoted entry is a memory entry of the nearest non-empty bucket below the count reached |
| LfuCaches.FindDemotion | src/main/java/com/sbiz/cache/implementations/LFUCache.java:144-174 | the outer scan of get answers the demotion |
| LfuCaches.DemotionCharacterised | src/main/java/com/sbiz/cache/implementations/LFUCache.java:141-181 | nothing is demoted when no bucket below is non-empty; otherwise the demotion is the pick of the nearest non-empty bucket |
| LfuCaches.FirstDiskFound | src/main/java/com/sbiz/cache/implementations/LFUCache.java:218-228 | the first disk entry at or after a position: none exactly when no disk entry follows, otherwise the first one |
| LfuCaches.ScanBucket | src/main/java/com/sbiz/cache/implementations/LFUCache.java:217-228 | the inner scan of remove answers the first disk entry after the removed key (or from the start once it was passed), and whether the key has been passed |
| LfuCaches.Promotion | src/main/java/com/sbiz/cache/implementations/LFUCache.java:203-236 | what the intended backward scan promotes, always a disk entry |
| LfuCaches.PromotionScan | src/main/java/com/sbiz/cache/implementations/LFUCache.java:213-231 | by induction over the buckets: the scan answers an entry exactly when some bucket at or below the one reached has a disk entry past its start point, and then the first such entry |
| LfuCaches.PromotionCharacterised | src/main/java/com/sbiz/cache/implementations/LFUCache.java:203-236 | the intended scan promotes nothing exactly when no bucket at or below the key's count has a disk entry past its start point, and otherwise the first such entry |
| LfuCaches.FindPromotion | src/main/java/com/sbiz/cache/implementations/LFUCache.java:209-231 | the backward scan, with each pass reading the bucket it has reached, answers the intended promotion |
| LfuCaches.PromotionAsWrittenStaysInBucket | src/main/java/com/sbiz/cache/implementations/LFUCache.java:213-231 | the scan as written only ever finds an entry of the removed key's own bucket, and finds none exactly when that bucket has no disk entry past its start point |
| LfuCaches.PromotionAsWritten | src/main/java/com/sbiz/cache/implementations/LFUCache.java:213-231 | the written scan's pick, when there is one, is a disk entry of the removed key's own bucket |
| LfuCaches.FindPromotionAsWritten | src/main/java/com/sbiz/cache/implementations/LFUCache.java:209-231 | the backward scan as written, which reads bucket `cachedNode.frequency` on every pass |
| LfuCaches.PromotionScanCounterexample | src/main/java/com/sbiz/cache/implementations/LFUCache.java:215 | for buckets [[0],[1]] with 0 on disk, removing 1 promotes nothing as written but promotes 0 as intended |
| LfuCaches.Restored | src/main/java/com/sbiz/cache/implementations/LFUCache.java:233-235 | the flags after the refill step: the promoted key, if any, is flagged as a memory entry and no other key is added |
| LfuCaches.LfuCache.constructor | src/main/java/com/sbiz/cache/implementations/LFUCache.java:50-55 | no nodes and no buckets, answering nothing |
| LfuCaches.LfuCache.Discard | src/main/java/com/sbiz/cache/implementations/LFUCache.java:238-240 | the key leaves its bucket, its tier and the node map, and its value is answered; memory loses one value for a memory entry and the disk one file for a disk entry |
| LfuCaches.LfuCache.DropValue | src/main/java/com/sbiz/cache/implementations/LFUCache.java:238-240 | the store part of discard: the key's value leaves the tier its flag names and is answered; memory loses one value for a memory entry and the disk one file for a disk entry |
| LfuCaches.LfuCache.DropNode | src/main/java/com/sbiz/cache/implementations/LFUCache.java:238-240 | the key leaves its bucket and the node map; the buckets still index the remaining keys |
| LfuCaches.LfuCache.EvictLeastFrequentItem | src/main/java/com/sbiz/cache/implementations/LFUCache.java:89-116 | the victim (least count, last inserted among those) leaves the bucket, the tier and the answers; the counter goes down by one, and memory loses one value for a memory victim and the disk one file for a disk victim |
| LfuCaches.LfuCache.Insert | src/main/java/com/sbiz/cache/implementations/LFUCache.java:67-85 | the key joins bucket 0; the store places the value in memory when it has room, otherwise on disk; when neither tier has room, StoreExhausted, and the key stays in bucket 0 without a node |
| LfuCaches.LfuCache.Register | src/main/java/com/sbiz/cache/implementations/LFUCache.java:80-84 | the placed key gets a node with count 0 and the tier the store chose, and the counter goes up by one |
| LfuCaches.LfuCache.Put | src/main/java/com/sbiz/cache/implementations/LFUCache.java:57-87 | an existing key keeps its count and is updated exactly when updateExisting; when the cache is full, a new key first evicts the victim (it exists), which leaves the answers, counts, flags and its bucket; the key then joins the end of bucket 0 with count 0, every other key keeps its count and flag, and the key's value goes to memory when memory has room after the eviction, otherwise to disk; it fails (StoreExhausted) exactly when neither tier has room after the eviction, and then the answers are those after the eviction |
| LfuCaches.LfuCache.PutNew | src/main/java/com/sbiz/cache/implementations/LFUCache.java:67-87 | the new-key path of put, with the same contract as put for a new key |
| LfuCaches.LfuCache.Touch | src/main/java/com/sbiz/cache/implementations/LFUCache.java:127-138 | the key's count goes up by one and the key moves to the end of the next bucket |
| LfuCaches.LfuCache.SwapTiers | src/main/java/com/sbiz/cache/implementations/LFUCache.java:176-180 | a memory entry goes to disk and a disk entry comes to memory; the answers and the memory size are unchanged |
| LfuCaches.LfuCache.Evacuate | src/main/java/com/sbiz/cache/implementations/LFUCache.java:178 | the memory entry goes to disk, memory holds one value fewer, and the answers, counts and buckets are unchanged |
| LfuCaches.LfuCache.Get | src/main/java/com/sbiz/cache/implementations/LFUCache.java:118-185 | a miss answers null and changes nothing; a hit answers the value, adds one to the key's count, and, for a disk entry with disk enabled, swaps tiers with the demotion pick below the new count when there is one; the answers are unchanged |
| LfuCaches.LfuCache.Rebalance | src/main/java/com/sbiz/cache/implementations/LFUCache.java:127-181 | the count step and the swap of a get hit together; the cache stays valid, answers the same for every key, and memory keeps its size |
| LfuCaches.LfuCache.Demote | src/main/java/com/sbiz/cache/implementations/LFUCache.java:141-181 | with disk enabled, a disk entry changes tiers with the demotion pick of the buckets as they are once the key has moved up |
| LfuCaches.LfuCache.Promote | src/main/java/com/sbiz/cache/implementations/LFUCache.java:233-235 | the disk entry comes to memory and the answers are unchanged |
| LfuCaches.LfuCache.Refill | src/main/java/com/sbiz/cache/implementations/LFUCache.java:203-236 | removing a memory entry with disk enabled brings back to memory the entry the intended scan finds, if any; otherwise nothing changes; the answers, counts and buckets are unchanged, and memory grows by one exactly when an entry is promoted |
| LfuCaches.LfuCache.Remove | src/main/java/com/sbiz/cache/implementations/LFUCache.java:191-243 | a miss answers null and changes nothing; a hit answers the value, drops the key from its bucket, tier and the answers, decrements the counter, and for a memory entry with disk enabled first promotes what the intended scan finds |
| LfuCaches.LfuCache.RemoveHit | src/main/java/com/sbiz/cache/implementations/LFUCache.java:200-243 | the hit path of remove, with the same contract as remove for a hit |
| LfuCaches.LfuCache.RemoveAsWritten | src/main/java/com/sbiz/cache/implementations/LFUCache.java:191-243 | remove as written: after a hit the counter is one more than the number of entries, and the promoted entry is the one the written scan finds |
| LfuCaches.LfuCache.ContainsKey | src/main/java/com/sbiz/cache/implementations/LFUCache.java:187-189 | true exactly when the cache answers for the key |
| LfuCaches.LfuCache.ContainsKeyAsWritten | src/main/java/com/sbiz/cache/implementations/LFUCache.java:187-189 | containsKey as written answers false for every key |
| LfuCaches.LfuCache.ContainsKeyAsWrittenMisses | src/main/java/com/sbiz/cache/implementations/LFUCache.java:187-189 | for a cached key, containsKey as written answers differently from the intended one |
| LfuCaches.LfuCache.IsEmpty | src/main/java/com/sbiz/cache/implementations/LFUCache.java:245-247 | true exactly when the cache answers for no key |
| LfuCaches.LfuCache.Size | src/main/java/com/sbiz/cache/implementations/LFUCache.java:249-251 | the counter equals the number of pairs the cache answers for |
| LfuCaches.LfuCache.Clear | src/main/java/com/sbiz/cache/implementations/LFUCache.java:253-258 | the cache answers nothing, no buckets remain, and the counter is 0 |
| LfuCaches.LfuCache.Reset | src/main/java/com/sbiz/cache/implementations/LFUCache.java:253-258 | the node-map part of clear: no counts, flags or buckets remain, and the counter is 0 |
| CacheBuilding.CacheBuilder.constructor | src/main/java/com/sbiz/cache/CacheBuilder.java:8-11 | disk caching off, the default location under the user's home, the given default capacity, and updateExisting on |
| CacheBuilding.CacheBuilder.EnableDiskCaching | src/main/java/com/sbiz/cache/CacheBuilder.java:14-17 | disk caching on and nothing else changes |
| CacheBuilding.CacheBuilder.DiskLocation | src/main/java/com/sbiz/cache/CacheBuilder.java:20-26 | the location is kept as given and disk caching is switched on |
| CacheBuilding.CacheBuilder.MaxSize | src/main/java/com/sbiz/cache/CacheBuilder.java:28-33 | a size below 1 is refused (InvalidMaxSize) and the capacity is kept; any other size becomes the capacity |
| CacheBuilding.CacheBuilder.UpdateExisting | src/main/java/com/sbiz/cache/CacheBuilder.java:39-41 | sets updateExisting and nothing else |

## Left out

- Logging, `toString`, `internals()` and `printInternalsDebug` produce text only and are not modelled.
- `synchronized` and the concurrent maps are not modelled: the model is sequential.
- Java serialization is not modelled. A file holds the value itself, with its serialized length given as a function of the value.
- Disk I/O failures are parameters of the `DiskStore` methods. `StoreManager` always passes "no failure", so the engines assume disk access succeeds.
- `DiskStore` declares no `clear`, `addUpdate` or `setSubFoldersPattern`, although `StoreManager` calls all three. `DiskStorage.DiskStore.Clear` supplies `clear`, which deletes the files under the location. `DiskStorage.DiskStore.AddUpdate` supplies `addUpdate`: the file is written as `add` writes it, and only a new file (isNew true) counts one more.
- `StoreManager` and `CacheEntry` call each other with different signatures (entry against key and flag). The model uses the key-and-flag form. The engines keep each entry's flag in a map from key to flag.
- `StoreManagement.StoreManager.Valid` assumes distinct keys have distinct hash codes. Two keys with the same hash share one file, and that case is not modelled at the manager level. `DiskStorage.DiskStore.FileNameInjective` states when files are shared.
- The following are not modelled: `StoreManager.build`, `DiskStore.initLocation` (creating directories), `setSubFoldersPattern`, `getDiskSize`, the size setters, and the getters of `StoreManager` and `CacheBuilder`. These are plain field reads and writes, or file system calls with no state in the model.
- `ACache` and `CacheTest` are not part of this model; only the settings `ACache` copies from the builder are used, as constructor parameters of the engines.
- `CacheBuilding.CacheBuilder.constructor`: `DEFAULT_MAX_SIZE` is referenced but defined nowhere, so the default capacity is a parameter. The setters return nothing, and a fluent chain is a sequence of calls on one builder.
- `CacheBuilding.CacheBuilder.UpdateExisting`: `updateExisting` at CacheBuilder.java:39-41 lacks its `return this`. The model keeps only its effect on the field.
- `LfuCaches.LfuCache.Put`: the `super.put(key, value)` at LFUCache.java:86 names a method `ACache` does not declare, and it is not modelled.
- `LfuCaches.LfuCache.Put`: when the store throws StoreExhausted, the key stays in bucket 0 without a node, as in the source. After that failure only `Held` is ensured, not the full invariant.
- `LfuCaches.LfuCache.Get`: the source first moves the key up one bucket and then swaps tiers. The model swaps first (`Demote`) and then moves the key (`Touch`). The demotion scan is given the buckets as they are after the move, so the resulting state is the same.
- `LfuCaches.LfuCache.Get`: the value is read before the count and tier steps, not after them as at LFUCache.java:184; those steps keep every answer, so the result is the same.
- `LfuCaches.LfuCache.EvictLeastFrequentItem`: the loop of `evictLeastFrequentItem` returns the key it picks, and the caller removes it. The source removes the key inside the loop and then stops.
- `LruCaches.LruCache`: the list is a sequence and `leastRecentlyMemory` an index, so the pointer quirks of LRUCache.java are abstracted away. These quirks are the self-loop of the first node (lines 100-101) and the null dereferences, all listed under "## Findings", and a marker left on a removed or evicted node. `LruLinks` keeps the pointers for put (demotion, eviction, placement and linking) and remove; it does not model get.
- `LruCaches.LruCache.Size`: LRUCache.java declares no `size()` method for the `Cache` interface. The model answers the `size` counter that `put`, `remove` and `clear` maintain.
- `LruCaches.LruCache.Remove`: the LRU engine's `remove` is modelled as intended, without the two null dereferences. Its contract about the memory tier covers only the case where a disk entry is promoted.
- The bounded integers of Java are unbounded here. No counter can come near 2^31 within the capacities.

## Findings

| source | as written | input that shows it | evidently intended | confidence | as-written member | corrected member |
|---|---|---|---|---|---|---|
| src/main/java/com/sbiz/cache/implementations/LFUCache.java:191-243 | `remove` never decrements `size` | put 1, remove 1: `size()` answers 1 for an empty cache, and later puts evict too early | `size--` for a hit, as evict and the LRU engine do | high, not executed | LfuCaches.LfuCache.RemoveAsWritten | LfuCaches.LfuCache.Remove |
| src/main/java/com/sbiz/cache/implementations/LFUCache.java:215 | every pass of the backward scan reads bucket `cachedNode.frequency`, not `currentFrequency` | disk enabled, key 0 on disk with count 0 and key 1 in memory with count 1; remove 1 promotes nothing | each pass reads the bucket it has reached, so the disk entry 0 comes back to memory | high, not executed | LfuCaches.PromotionScanCounterexample | LfuCaches.PromotionCharacterised |
| src/main/java/com/sbiz/cache/implementations/LFUCache.java:187-189 | `ConcurrentHashMap.contains` looks for a value (a node), never a key | put 1, containsKey(1) answers false | `containsKey`, true exactly for cached keys | high, not executed | LfuCaches.LfuCache.ContainsKeyAsWrittenMisses | LfuCaches.LfuCache.ContainsKey |
| src/main/java/com/sbiz/cache/implementations/LRUCache.java:220-227 | removing the least recent node sets its successor's `previous` to null; removing that successor when it is the most recent then writes through that null | disk disabled, maxSize >= 2: put 1, put 2, remove 1, remove 2 throws NullPointerException | the last node is unlinked and the list becomes empty | high, not executed | LruLinks.RemoveOnlyEntryAsWritten | LruCaches.LruCache.Remove |
| src/main/java/com/sbiz/cache/implementations/LRUCache.java:185-195 | the first node's `previous` is the sentinel (line 91), whose entry is null, and `promoteLeastRecentMemory` reads that entry | disk enabled: put 1, remove 1 throws NullPointerException | the sentinel is treated as "no previous node" and nothing is promoted | high, not executed | LruLinks.RemoveFirstEntryAsWritten | LruCaches.LruCache.PromoteLeastRecentMemory |
| src/main/java/com/sbiz/cache/implementations/LRUCache.java:97-102 | the first node's `next` is set to itself, so the first demotion (line 180) leaves `leastRecentlyMemory` on the node it just sent to disk, and the next demotion brings that node back to memory | disk enabled, maxMemorySize 1, maxSize 3: put 1, put 2, put 3 leaves memory holding 1 and 2, over its bound of 1, and places 3 on disk | the marker moves on to the next node, memory stays within its bound and the new key is placed in memory | high, not executed | LruLinks.SelfLoopPutAsWritten | LruCaches.LruCache.Put |
