/** The least-frequently-used engine. The node map `cache` is split into
    `frequency` (each cached key's node frequency) and `disk` (the diskStored
    flag of its entry); the map `frequencies` from a count to an
    insertion-ordered set of keys is `buckets`, indexed by the count. Counts
    are created from 0 upwards one at a time, so the sequence has no gaps. */
module LfuCaches {
  import opened CacheBasics
  import opened StoreManagement

  /** Every key of every bucket is an entry whose frequency is that bucket's
      index, no bucket holds a key twice, and every entry is in the bucket of
      its frequency. */
  ghost predicate Indexed<K>(buckets: seq<seq<K>>, frequency: map<K, nat>)
  {
    && (forall g :: 0 <= g < |buckets| ==> Distinct(buckets[g]))
    && (forall g, i :: 0 <= g < |buckets| && 0 <= i < |buckets[g]| ==>
          buckets[g][i] in frequency && frequency[buckets[g][i]] == g)
    && (forall k :: k in frequency ==> frequency[k] < |buckets| && k in buckets[frequency[k]])
  }

  /** The buckets once `key` has joined the set of count `g`, appended at its
      end; a count one past the last is a new set. */
  function Joined<K>(buckets: seq<seq<K>>, g: nat, key: K): seq<seq<K>>
    requires g <= |buckets|
  {
    if g == |buckets| then buckets + [[key]] else buckets[g := buckets[g] + [key]]
  }

  /** The buckets once `key` joins the count-0 set, which put creates when missing. */
  function Added<K>(buckets: seq<seq<K>>, key: K): seq<seq<K>>
  {
    Joined(buckets, 0, key)
  }

  /** The buckets once `key` has left the set of count `g` and joined the set
      of count g + 1, which get creates when missing. */
  function Bumped<K(==)>(buckets: seq<seq<K>>, g: nat, key: K): seq<seq<K>>
    requires g < |buckets|
  {
    Joined(buckets[g := Erase(buckets[g], key)], g + 1, key)
  }

  /** The counts once `key` has been read once more. */
  function Counted<K>(frequency: map<K, nat>, key: K): (r: map<K, nat>)
    requires key in frequency
    ensures r.Keys == frequency.Keys && |r| == |frequency|
  {
    frequency[key := frequency[key] + 1]
  }

  lemma {:induction false} DistinctErase<K>(s: seq<K>, key: K)
    requires Distinct(s)
    ensures Distinct(Erase(s, key))
  {
    if key in s {
      var i := IndexOf(s, key);
      EraseRemoveAt(s, i);
      DistinctRemoveAt(s, i);
    } else {
      EraseAbsent(s, key);
    }
  }

  /** A key with no node joins the end of the set of count `g`. */
  lemma {:induction false} JoinStep<K>(buckets: seq<seq<K>>, frequency: map<K, nat>, key: K, g: nat)
    requires Indexed(buckets, frequency) && key !in frequency && g <= |buckets|
    ensures Indexed(Joined(buckets, g, key), frequency[key := g])
  {
    if g < |buckets| {
      var b := buckets[g] + [key];
      forall i, j | 0 <= i < j < |b|
        ensures b[i] != b[j]
      {
        if j == |buckets[g]| {
          assert buckets[g][i] in frequency;
        }
      }
    }
  }

  /** A new key joins the count-0 bucket with frequency 0. */
  lemma {:induction false} InsertStep<K>(buckets: seq<seq<K>>, frequency: map<K, nat>, key: K)
    requires Indexed(buckets, frequency) && key !in frequency
    ensures Indexed(Added(buckets, key), frequency[key := 0])
  {
    JoinStep(buckets, frequency, key, 0);
  }

  /** An entry leaves its bucket and the node map; every other entry stays put. */
  lemma {:induction false} DropStep<K>(buckets: seq<seq<K>>, frequency: map<K, nat>, key: K)
    requires Indexed(buckets, frequency) && key in frequency
    ensures Indexed(buckets[frequency[key] := Erase(buckets[frequency[key]], key)], frequency - {key})
  {
    DistinctErase(buckets[frequency[key]], key);
  }

  /** An entry moves from the bucket of its count to the next one up. */
  lemma {:induction false} BumpStep<K>(buckets: seq<seq<K>>, frequency: map<K, nat>, key: K)
    requires Indexed(buckets, frequency) && key in frequency
    ensures Indexed(Bumped(buckets, frequency[key], key), Counted(frequency, key))
  {
    var g := frequency[key];
    DropStep(buckets, frequency, key);
    JoinStep(buckets[g := Erase(buckets[g], key)], frequency - {key}, key, g + 1);
    assert (frequency - {key})[key := g + 1] == Counted(frequency, key);
  }

  /** Index of the lowest non-empty bucket from `from` on, or |buckets| when
      there is none. */
  ghost function LowestNonEmpty<K>(buckets: seq<seq<K>>, from: nat): (g: nat)
    requires from <= |buckets|
    ensures from <= g <= |buckets|
    ensures g < |buckets| ==> buckets[g] != []
    ensures forall h :: from <= h < g ==> buckets[h] == []
    decreases |buckets| - from
  {
    if from == |buckets| || buckets[from] != [] then from else LowestNonEmpty(buckets, from + 1)
  }

  /** The key evictLeastFrequentItem takes: the last-inserted key of the
      lowest non-empty bucket. */
  ghost function Victim<K>(buckets: seq<seq<K>>): Option<K>
  {
    var g := LowestNonEmpty(buckets, 0);
    if g < |buckets| then Some(buckets[g][|buckets[g]| - 1]) else None
  }

  /** A map once the evicted key, if any, has left it. */
  function Without<K, X>(m: map<K, X>, victim: Option<K>): (r: map<K, X>)
    ensures r.Keys == if victim.Some? then m.Keys - {victim.value} else m.Keys
  {
    if victim.Some? then m - {victim.value} else m
  }

  /** The buckets once the evicted key, if any, has left the set of its count. */
  function Evicted<K(==)>(buckets: seq<seq<K>>, frequency: map<K, nat>, victim: Option<K>): (r: seq<seq<K>>)
    ensures |r| == |buckets|
  {
    if victim.Some? && victim.value in frequency && frequency[victim.value] < |buckets|
    then buckets[frequency[victim.value] := Erase(buckets[frequency[victim.value]], victim.value)]
    else buckets
  }

  /** A cache with entries has a victim, and it is an entry of least frequency
      and, among those, the one inserted last. */
  lemma {:induction false} VictimLeastFrequent<K>(buckets: seq<seq<K>>, frequency: map<K, nat>)
    requires Indexed(buckets, frequency) && |frequency| > 0
    ensures Victim(buckets).Some?
    ensures var v := Victim(buckets).value;
      && v in frequency
      && (forall k :: k in frequency ==> frequency[v] <= frequency[k])
      && v == buckets[frequency[v]][|buckets[frequency[v]]| - 1]
  {
    assert frequency.Keys != {};
    var k :| k in frequency;
    assert buckets[frequency[k]] != [];
    var g := LowestNonEmpty(buckets, 0);
    assert g < |buckets|;
  }

  /** The loop of evictLeastFrequentItem: the buckets are tried from count 0
      upwards and the last-inserted key of the first non-empty one is taken.
      The source removes that key inside the loop and then stops; here the loop
      answers the key and the caller removes it, which is the same. */
  method FindVictim<K>(buckets: seq<seq<K>>) returns (victim: K)
    requires Victim(buckets).Some?
    ensures Victim(buckets) == Some(victim)
  {
    ghost var g := LowestNonEmpty(buckets, 0);
    var evicted := false;
    var index := 0;
    var lastKey: Option<K> := None;
    while !evicted
      invariant 0 <= index <= g + 1 && g < |buckets|
      invariant !evicted ==> index <= g
      invariant evicted ==> Victim(buckets) == lastKey
      decreases g + 1 - index
    {
      if buckets[index] != [] {
        var last := LastInserted(buckets[index]);
        lastKey := Some(last);
        evicted := true;
      }
      index := index + 1;
    }
    victim := lastKey.value;
  }

  /** Whether `k` is an entry stored on disk. */
  predicate IsDisk<K>(disk: map<K, bool>, k: K)
  {
    k in disk && disk[k]
  }

  /** The iterator walk of evictLeastFrequentItem ends at the last-inserted key. */
  method LastInserted<K>(bucket: seq<K>) returns (last: K)
    requires bucket != []
    ensures last == bucket[|bucket| - 1]
  {
    last := bucket[0];
    var j := 1;
    while j < |bucket|
      invariant 1 <= j <= |bucket| && last == bucket[j - 1]
    {
      last := bucket[j];
      j := j + 1;
    }
  }

  /** In `bucket`, the first run of memory entries spans [start, end): all
      entries before it are on disk and the one after it, if any, is on disk. */
  ghost predicate FirstMemoryRun<K>(bucket: seq<K>, disk: map<K, bool>, start: int, end: int)
  {
    && 0 <= start < end <= |bucket|
    && (forall l :: 0 <= l < start ==> IsDisk(disk, bucket[l]))
    && (forall l :: start <= l < end ==> !IsDisk(disk, bucket[l]))
    && (end == |bucket| || IsDisk(disk, bucket[end]))
  }

  /** What the scan of get may pick in a bucket: nothing when every entry is on
      disk, otherwise the last entry of the first run of memory entries. */
  ghost predicate DemotionPick<K>(bucket: seq<K>, disk: map<K, bool>, pick: Option<K>)
  {
    && (pick.None? <==> forall l :: 0 <= l < |bucket| ==> IsDisk(disk, bucket[l]))
    && (pick.Some? ==> exists start, end :: FirstMemoryRun(bucket, disk, start, end) && pick.value == bucket[end - 1])
  }

  /** Position of the first memory entry at or after `from`, or |bucket|. */
  function FirstMemory<K>(bucket: seq<K>, disk: map<K, bool>, from: nat): (r: nat)
    requires from <= |bucket|
    ensures from <= r <= |bucket|
    ensures forall l :: from <= l < r ==> IsDisk(disk, bucket[l])
    ensures r < |bucket| ==> !IsDisk(disk, bucket[r])
    decreases |bucket| - from
  {
    if from == |bucket| || !IsDisk(disk, bucket[from]) then from else FirstMemory(bucket, disk, from + 1)
  }

  /** Position of the first disk entry at or after `from`, or |bucket|. */
  function FirstDiskIndex<K>(bucket: seq<K>, disk: map<K, bool>, from: nat): (r: nat)
    requires from <= |bucket|
    ensures from <= r <= |bucket|
    ensures forall l :: from <= l < r ==> !IsDisk(disk, bucket[l])
    ensures r < |bucket| ==> IsDisk(disk, bucket[r])
    decreases |bucket| - from
  {
    if from == |bucket| || IsDisk(disk, bucket[from]) then from else FirstDiskIndex(bucket, disk, from + 1)
  }

  /** The entry the scan of get demotes from `bucket`: the last entry of the
      first run of memory entries, if the bucket has a memory entry. */
  function LastOfFirstRun<K>(bucket: seq<K>, disk: map<K, bool>): (r: Option<K>)
    ensures r.Some? ==> r.value in bucket && !IsDisk(disk, r.value)
  {
    var start := FirstMemory(bucket, disk, 0);
    if start == |bucket| then None else Some(bucket[FirstDiskIndex(bucket, disk, start) - 1])
  }

  /** The pick is the one DemotionPick describes, and no other pick fits it. */
  lemma {:induction false} LastOfFirstRunPick<K>(bucket: seq<K>, disk: map<K, bool>, pick: Option<K>)
    ensures DemotionPick(bucket, disk, LastOfFirstRun(bucket, disk))
    ensures DemotionPick(bucket, disk, pick) ==> pick == LastOfFirstRun(bucket, disk)
  {
    var start := FirstMemory(bucket, disk, 0);
    if start < |bucket| {
      var end := FirstDiskIndex(bucket, disk, start);
      assert FirstMemoryRun(bucket, disk, start, end);
      if DemotionPick(bucket, disk, pick) {
        assert !IsDisk(disk, bucket[start]);
        var s, e :| FirstMemoryRun(bucket, disk, s, e) && pick.value == bucket[e - 1];
        assert !IsDisk(disk, bucket[s]);
        assert s == start;
        assert e < |bucket| ==> IsDisk(disk, bucket[e]);
        assert end < |bucket| ==> IsDisk(disk, bucket[end]);
        assert e == end;
      }
    }
  }

  /** The inner scan of get: walks the bucket in insertion order, remembers the
      latest memory entry once one is seen, and stops at the first disk entry
      after it. */
  method LastMemoryOfFirstRun<K>(bucket: seq<K>, disk: map<K, bool>) returns (last: Option<K>)
    ensures last == LastOfFirstRun(bucket, disk)
  {
    var overpassed := false;
    var stopSearch := false;
    last := None;
    var j := 0;
    ghost var start := 0;
    while j < |bucket| && !stopSearch
      invariant 0 <= j <= |bucket|
      invariant !overpassed ==> last == None && !stopSearch && forall l :: 0 <= l < j ==> IsDisk(disk, bucket[l])
      invariant overpassed ==> start < j && forall l :: 0 <= l < start ==> IsDisk(disk, bucket[l])
      invariant overpassed && !stopSearch ==>
        last == Some(bucket[j - 1]) && forall l :: start <= l < j ==> !IsDisk(disk, bucket[l])
      invariant stopSearch ==> 2 <= j && last == Some(bucket[j - 2]) && FirstMemoryRun(bucket, disk, start, j - 1)
    {
      var memoryEntry := !IsDisk(disk, bucket[j]);
      if memoryEntry {
        if !overpassed {
          start := j;
        }
        overpassed := true;
        last := Some(bucket[j]);
      }
      if overpassed && !memoryEntry {
        stopSearch := true;
      }
      j := j + 1;
    }
    if overpassed && !stopSearch {
      assert FirstMemoryRun(bucket, disk, start, j);
    }
    LastOfFirstRunPick(bucket, disk, last);
  }

  /** Index of the nearest non-empty bucket at or below `from`, or -1. */
  ghost function NearestNonEmpty<K>(buckets: seq<seq<K>>, from: int): (g: int)
    requires -1 <= from < |buckets|
    ensures -1 <= g <= from
    ensures g >= 0 ==> buckets[g] != []
    ensures forall h :: g < h <= from && 0 <= h ==> buckets[h] == []
    decreases from + 1
  {
    if from < 0 then -1 else if buckets[from] != [] then from else NearestNonEmpty(buckets, from - 1)
  }

  /** The entry get demotes when a disk entry reaches count from + 1: the pick
      of the nearest non-empty bucket at or below `from`. */
  ghost function Demotion<K>(buckets: seq<seq<K>>, disk: map<K, bool>, from: int): (r: Option<K>)
    requires -1 <= from < |buckets|
    ensures r.Some? ==> (0 <= NearestNonEmpty(buckets, from) && r.value in buckets[NearestNonEmpty(buckets, from)]
      && !IsDisk(disk, r.value))
  {
    var g := NearestNonEmpty(buckets, from);
    if g < 0 then None else LastOfFirstRun(buckets[g], disk)
  }

  /** The outer scan of get: from `from` downwards, the first non-empty bucket
      is scanned and the search ends there. */
  method FindDemotion<K>(buckets: seq<seq<K>>, disk: map<K, bool>, from: int) returns (pick: Option<K>)
    requires -1 <= from < |buckets|
    ensures pick == Demotion(buckets, disk, from)
  {
    pick := None;
    var setFound := false;
    var index := from;
    while index >= 0 && !setFound
      invariant -1 <= index <= from
      invariant !setFound ==> pick == None && NearestNonEmpty(buckets, from) == NearestNonEmpty(buckets, index)
      invariant setFound ==> pick == Demotion(buckets, disk, from)
      decreases index + 1
    {
      if buckets[index] != [] {
        setFound := true;
        pick := LastMemoryOfFirstRun(buckets[index], disk);
      }
      index := index - 1;
    }
  }

  /** A demoted entry is a memory entry of the nearest non-empty bucket below
      the count reached, the last of the first memory run there; there is none
      exactly when every entry of that bucket is on disk or no such bucket exists. */
  lemma {:induction false} DemotionCharacterised<K>(buckets: seq<seq<K>>, disk: map<K, bool>, from: int)
    requires -1 <= from < |buckets|
    ensures var g := NearestNonEmpty(buckets, from);
      && (g < 0 ==> Demotion(buckets, disk, from) == None)
      && (g >= 0 ==> DemotionPick(buckets[g], disk, Demotion(buckets, disk, from)))
  {
    var g := NearestNonEmpty(buckets, from);
    if g >= 0 {
      LastOfFirstRunPick(buckets[g], disk, None);
    }
  }

  /** `l` is the first disk entry of `bucket` at or after position `from`. */
  ghost predicate FirstDiskFrom<K>(bucket: seq<K>, disk: map<K, bool>, from: int, l: int)
  {
    && 0 <= from <= l < |bucket|
    && IsDisk(disk, bucket[l])
    && forall m :: from <= m < l ==> !IsDisk(disk, bucket[m])
  }

  /** No entry of `bucket` at or after position `from` is on disk. */
  ghost predicate NoDiskFrom<K>(bucket: seq<K>, disk: map<K, bool>, from: nat)
  {
    forall m :: from <= m < |bucket| ==> !IsDisk(disk, bucket[m])
  }

  /** The first disk entry of `bucket` at or after position `from`, if any. */
  function FirstDisk<K>(bucket: seq<K>, disk: map<K, bool>, from: nat): (r: Option<K>)
    ensures r.Some? ==> IsDisk(disk, r.value) && r.value in bucket
  {
    if from < |bucket| then
      var l := FirstDiskIndex(bucket, disk, from);
      if l < |bucket| then Some(bucket[l]) else None
    else None
  }

  /** FirstDisk finds nothing exactly when no disk entry follows, and what it
      finds is the first one. */
  lemma {:induction false} FirstDiskFound<K>(bucket: seq<K>, disk: map<K, bool>, from: nat)
    ensures FirstDisk(bucket, disk, from).None? <==> NoDiskFrom(bucket, disk, from)
    ensures FirstDisk(bucket, disk, from).Some? ==>
      FirstDiskFrom(bucket, disk, from, FirstDiskIndex(bucket, disk, from))
      && FirstDisk(bucket, disk, from).value == bucket[FirstDiskIndex(bucket, disk, from)]
    ensures forall l :: FirstDiskFrom(bucket, disk, from, l) ==> FirstDisk(bucket, disk, from) == Some(bucket[l])
  {
    if from < |bucket| {
      var r := FirstDiskIndex(bucket, disk, from);
      forall l | FirstDiskFrom(bucket, disk, from, l)
        ensures r == l
      {
        assert r < |bucket| ==> IsDisk(disk, bucket[r]);
      }
    }
  }

  /** Where the scan of remove starts looking in `bucket`: past `key` when
      `passed` is false, from the start otherwise. */
  function After<K(==)>(bucket: seq<K>, key: K, passed: bool): nat
  {
    if passed then 0 else if key in bucket then IndexOf(bucket, key) + 1 else |bucket|
  }

  /** The inner scan of remove: walks the bucket in insertion order and takes
      the first disk entry met once `key` has been passed. */
  method ScanBucket<K(==)>(bucket: seq<K>, disk: map<K, bool>, key: K, passed: bool)
    returns (found: Option<K>, passedAfter: bool)
    ensures found == FirstDisk(bucket, disk, After(bucket, key, passed))
    ensures passedAfter == (passed || key in bucket)
  {
    found := None;
    passedAfter := passed;
    var j := 0;
    ghost var from := After(bucket, key, passed);
    while j < |bucket| && found.None?
      invariant 0 <= j <= |bucket|
      invariant passedAfter == (passed || key in bucket[..j])
      invariant found.None? ==> forall m :: from <= m < j ==> !IsDisk(disk, bucket[m])
      invariant found.Some? ==> (1 <= j && passedAfter && FirstDiskFrom(bucket, disk, from, j - 1)
        && found.value == bucket[j - 1])
    {
      if passedAfter && IsDisk(disk, bucket[j]) {
        found := Some(bucket[j]);
      }
      if bucket[j] == key {
        passedAfter := true;
      }
      assert bucket[..j + 1] == bucket[..j] + [bucket[j]];
      j := j + 1;
    }
    assert bucket[..|bucket|] == bucket;
    FirstDiskFound(bucket, disk, from);
  }

  /** The entry remove promotes, as intended, scanning from bucket `h` down:
      in the bucket `f` of the key's count the first disk entry after `key`,
      in a lower bucket its first disk entry. */
  function Promotion<K(==)>(buckets: seq<seq<K>>, disk: map<K, bool>, key: K, f: nat, h: int): (r: Option<K>)
    requires -1 <= h <= f < |buckets|
    ensures r.Some? ==> IsDisk(disk, r.value)
    decreases h + 1
  {
    if h < 0 then None
    else
      var found := FirstDisk(buckets[h], disk, After(buckets[h], key, h < f));
      if found.Some? then found else Promotion(buckets, disk, key, f, h - 1)
  }

  /** The promoted entry sits in bucket `h` at position `l`: it is the first
      disk entry of its bucket after the place the scan starts there, and the
      scan found nothing in any bucket between `h` and `f`. */
  ghost predicate PromotionAt<K>(buckets: seq<seq<K>>, disk: map<K, bool>, key: K, f: nat, h: int, l: int)
    requires f < |buckets|
  {
    && 0 <= h <= f
    && FirstDiskFrom(buckets[h], disk, After(buckets[h], key, h < f), l)
    && forall h' :: h < h' <= f ==> NoDiskFrom(buckets[h'], disk, After(buckets[h'], key, h' < f))
  }

  lemma {:induction false} PromotionScan<K>(buckets: seq<seq<K>>, disk: map<K, bool>, key: K, f: nat, h: int)
    requires -1 <= h <= f < |buckets|
    requires forall h' :: h < h' <= f ==> NoDiskFrom(buckets[h'], disk, After(buckets[h'], key, h' < f))
    ensures Promotion(buckets, disk, key, f, h).None? ==> forall h', l :: !PromotionAt(buckets, disk, key, f, h', l)
    ensures Promotion(buckets, disk, key, f, h).Some? ==> exists h', l :: (PromotionAt(buckets, disk, key, f, h', l)
      && Promotion(buckets, disk, key, f, h).value == buckets[h'][l])
    decreases h + 1
  {
    if h >= 0 {
      var from := After(buckets[h], key, h < f);
      FirstDiskFound(buckets[h], disk, from);
      if FirstDisk(buckets[h], disk, from).None? {
        PromotionScan(buckets, disk, key, f, h - 1);
      } else {
        assert PromotionAt(buckets, disk, key, f, h, FirstDiskIndex(buckets[h], disk, from));
      }
    } else {
      forall h', l
        ensures !PromotionAt(buckets, disk, key, f, h', l)
      {
        if 0 <= h' <= f && 0 <= l < |buckets[h']| {
          assert NoDiskFrom(buckets[h'], disk, After(buckets[h'], key, h' < f));
        }
      }
    }
  }

  /** The intended scan promotes nothing exactly when no entry fits
      PromotionAt, and otherwise the entry that does. */
  lemma {:induction false} PromotionCharacterised<K>(buckets: seq<seq<K>>, disk: map<K, bool>, key: K, f: nat)
    requires f < |buckets|
    ensures Promotion(buckets, disk, key, f, f).None? <==> forall h, l :: !PromotionAt(buckets, disk, key, f, h, l)
    ensures Promotion(buckets, disk, key, f, f).Some? ==> exists h, l :: (PromotionAt(buckets, disk, key, f, h, l)
      && Promotion(buckets, disk, key, f, f).value == buckets[h][l])
  {
    PromotionScan(buckets, disk, key, f, f);
  }

  /** The backward scan of remove with each pass reading the bucket it has
      reached. */
  method FindPromotion<K(==)>(buckets: seq<seq<K>>, disk: map<K, bool>, key: K, f: nat) returns (found: Option<K>)
    requires f < |buckets| && key in buckets[f]
    ensures found == Promotion(buckets, disk, key, f, f)
  {
    found := None;
    var currentFrequency: int := f;
    var passedCurrent := false;
    while currentFrequency >= 0 && found.None?
      invariant -1 <= currentFrequency <= f
      invariant passedCurrent == (currentFrequency < f)
      invariant found.None? ==> Promotion(buckets, disk, key, f, f) == Promotion(buckets, disk, key, f, currentFrequency)
      invariant found.Some? ==> found == Promotion(buckets, disk, key, f, f)
      decreases currentFrequency + 1
    {
      found, passedCurrent := ScanBucket(buckets[currentFrequency], disk, key, passedCurrent);
      currentFrequency := currentFrequency - 1;
    }
  }

  /** The answer of remove's scan as the source writes it: every pass reads
      the bucket `f` of the removed key's count, never the one it has reached,
      so the first pass looks past `key` and every later pass (there is one
      when f > 0) looks at that same bucket from its start. */
  function PromotionAsWritten<K(==)>(buckets: seq<seq<K>>, disk: map<K, bool>, key: K, f: nat): (r: Option<K>)
    requires f < |buckets|
    ensures r.Some? ==> IsDisk(disk, r.value) && r.value in buckets[f]
  {
    var b := buckets[f];
    var first := FirstDisk(b, disk, After(b, key, false));
    if first.Some? || f == 0 then first else FirstDisk(b, disk, 0)
  }

  /** Below count f the written scan finds a disk entry only in bucket f
      itself, so a lower bucket's disk entry is never promoted. */
  lemma {:induction false} PromotionAsWrittenStaysInBucket<K>(buckets: seq<seq<K>>, disk: map<K, bool>, key: K, f: nat)
    requires f < |buckets| && key in buckets[f]
    ensures PromotionAsWritten(buckets, disk, key, f).None? <==> NoDiskFrom(buckets[f], disk, if f == 0 then IndexOf(buckets[f], key) + 1 else 0)
    ensures PromotionAsWritten(buckets, disk, key, f).Some? ==> PromotionAsWritten(buckets, disk, key, f).value in buckets[f]
  {
    var b := buckets[f];
    FirstDiskFound(b, disk, After(b, key, false));
    FirstDiskFound(b, disk, 0);
  }

  /** The backward scan of remove as the source writes it. */
  method FindPromotionAsWritten<K(==)>(buckets: seq<seq<K>>, disk: map<K, bool>, key: K, f: nat)
    returns (found: Option<K>)
    requires f < |buckets| && key in buckets[f]
    ensures found == PromotionAsWritten(buckets, disk, key, f)
  {
    var b := buckets[f];
    found := None;
    var currentFrequency: int := f;
    var passedCurrent := false;
    while currentFrequency >= 0 && found.None?
      invariant -1 <= currentFrequency <= f
      invariant passedCurrent == (currentFrequency < f)
      invariant found.None? ==> ((currentFrequency < f ==> FirstDisk(b, disk, After(b, key, false)).None?)
        && (currentFrequency < f - 1 ==> FirstDisk(b, disk, 0).None?))
      invariant found.Some? ==> found == PromotionAsWritten(buckets, disk, key, f)
      decreases currentFrequency + 1
    {
      found, passedCurrent := ScanBucket(buckets[f], disk, key, passedCurrent);
      currentFrequency := currentFrequency - 1;
    }
  }

  /** A key memory-resident alone at count 1 above a disk entry at count 0:
      the scan as written finds nothing to promote, where the intended scan
      finds the disk entry. */
  lemma PromotionScanCounterexample()
    ensures PromotionAsWritten([[0], [1]], map[0 := true, 1 := false], 1, 1) == None
    ensures Promotion([[0], [1]], map[0 := true, 1 := false], 1, 1, 1) == Some(0)
  {
    var buckets := [[0], [1]];
    var disk := map[0 := true, 1 := false];
    assert IndexOf(buckets[1], 1) == 0;
    assert FirstDisk(buckets[1], disk, 1) == None;
    assert FirstDisk(buckets[1], disk, 0) == None;
    assert FirstDisk(buckets[0], disk, 0) == Some(0);
  }

  /** The flags once remove's refill step has brought `promoted`, if any,
      back to memory. */
  function Restored<K>(disk: map<K, bool>, promoted: Option<K>): (r: map<K, bool>)
    ensures r.Keys == disk.Keys + (if promoted.Some? then {promoted.value} else {})
  {
    if promoted.Some? then disk[promoted.value := false] else disk
  }

  class LfuCache<K(==,!new), V> {
    var frequency: map<K, nat>
    var disk: map<K, bool>
    var buckets: seq<seq<K>>
    var size: int
    const store: StoreManager<K, V>
    const maxSize: int
    const updateExisting: bool

    /** The node map and the tiers agree: one flag per node, each value where
        its flag says. */
    ghost predicate Held()
      reads this`frequency, this`disk, store, store.fileStore
    {
      && store.Valid()
      && frequency.Keys == disk.Keys
      && Tiered(disk, store.memoryStore, store.onDisk)
    }

    /** Held, and the buckets index the node map by frequency. */
    ghost predicate Linked()
      reads this`frequency, this`disk, this`buckets, store, store.fileStore
    {
      Held() && Indexed(buckets, frequency)
    }

    /** Linked, the counter counts the nodes, and both capacities are kept. */
    ghost predicate Valid()
      reads this, store, store.fileStore
    {
      && Linked()
      && size == |frequency|
      && 1 <= maxSize && size <= maxSize
      && |store.memoryStore| <= store.maxMemorySize
    }

    /** The key/value pairs the cache answers for. */
    ghost function Contents(): map<K, V>
      reads this`disk, store
      requires Tiered(disk, store.memoryStore, store.onDisk)
    {
      View(disk, store.memoryStore, store.onDisk)
    }

    /** initializeStrategy: no nodes and no counts yet. */
    constructor (maxSize: int, updateExisting: bool, store: StoreManager<K, V>)
      requires store.Valid() && store.memoryStore == map[] && store.onDisk == map[]
      requires maxSize >= 1 && store.maxMemorySize >= 1
      ensures Valid() && Contents() == map[] && buckets == [] && size == 0
      ensures this.store == store && this.maxSize == maxSize && this.updateExisting == updateExisting
    {
      frequency := map[];
      disk := map[];
      buckets := [];
      size := 0;
      this.store := store;
      this.maxSize := maxSize;
      this.updateExisting := updateExisting;
    }

    /** Takes `key` out of its bucket, deletes its value from its tier and
        drops its node, answering the value. Eviction and remove both end so. */
    method Discard(key: K) returns (r: Option<V>)
      requires Linked() && key in frequency
      modifies this, store, store.fileStore
      ensures Linked() && size == old(size)
      ensures frequency == old(frequency) - {key} && disk == old(disk) - {key}
      ensures buckets == old(buckets)[old(frequency)[key] := Erase(old(buckets)[old(frequency)[key]], key)]
      ensures Contents() == old(Contents()) - {key} && r == Some(old(Contents())[key])
      ensures |frequency| == old(|frequency|) - 1
      ensures old(disk)[key] ==> |store.memoryStore| == old(|store.memoryStore|)
      ensures old(disk)[key] ==> store.fileStore.size == old(store.fileStore.size) - 1
      ensures !old(disk)[key] ==> |store.memoryStore| == old(|store.memoryStore|) - 1
      ensures !old(disk)[key] ==> store.fileStore.size == old(store.fileStore.size)
    {
      var flags := disk;
      DropNode(key);
      r := DropValue(flags, key);
    }

    /** The store part of Discard: the value of `key`, whose tier `flags`
        gives, leaves that tier. */
    method DropValue(flags: map<K, bool>, key: K) returns (r: Option<V>)
      requires store.Valid() && Tiered(flags, store.memoryStore, store.onDisk) && key in flags
      modifies store, store.fileStore
      ensures store.Valid() && Tiered(flags - {key}, store.memoryStore, store.onDisk)
      ensures View(flags - {key}, store.memoryStore, store.onDisk) == old(View(flags, store.memoryStore, store.onDisk)) - {key}
      ensures r == Some(old(View(flags, store.memoryStore, store.onDisk))[key])
      ensures |store.memoryStore| == old(|store.memoryStore|) - (if flags[key] then 0 else 1)
      ensures store.fileStore.size == old(store.fileStore.size) - (if flags[key] then 1 else 0)
    {
      DropTier(flags, store.memoryStore, store.onDisk, key);
      r := store.Remove(key, flags[key]);
    }

    /** The node-map part of Discard: `key` leaves its bucket and the maps. */
    method DropNode(key: K)
      requires Indexed(buckets, frequency) && frequency.Keys == disk.Keys && key in frequency
      modifies this
      ensures Indexed(buckets, frequency) && frequency.Keys == disk.Keys && size == old(size)
      ensures frequency == old(frequency) - {key} && disk == old(disk) - {key}
      ensures buckets == old(buckets)[old(frequency)[key] := Erase(old(buckets)[old(frequency)[key]], key)]
      ensures |frequency| == old(|frequency|) - 1
    {
      DropStep(buckets, frequency, key);
      buckets := buckets[frequency[key] := Erase(buckets[frequency[key]], key)];
      frequency := frequency - {key};
      disk := disk - {key};
    }

    /** evictLeastFrequentItem: the victim is found (see FindVictim), taken
        out of its bucket, its tier and the node map, and the counter goes down. */
    method EvictLeastFrequentItem()
      requires Valid() && size > 0
      modifies this, store, store.fileStore
      ensures Valid() && size == old(size) - 1
      ensures Victim(old(buckets)).Some? && Victim(old(buckets)).value in old(frequency)
      ensures var v := Victim(old(buckets)).value;
        && frequency == old(frequency) - {v} && disk == old(disk) - {v}
        && |store.memoryStore| == old(|store.memoryStore|) - (if old(disk)[v] then 0 else 1)
        && store.fileStore.size == old(store.fileStore.size) - (if old(disk)[v] then 1 else 0)
        && buckets == old(buckets)[old(frequency)[v] := Erase(old(buckets)[old(frequency)[v]], v)]
        && Contents() == old(Contents()) - {v}
    {
      VictimLeastFrequent(buckets, frequency);
      var victim := FindVictim(buckets);
      size := size - 1;
      var _ := Discard(victim);
    }

    /** The tail of put for a new key: it joins the count-0 bucket, then the
        store places its value (memory while it has room, else disk); when the
        store has no room it throws StoreExhausted and the key is left in the
        bucket with no node. */
    method Insert(key: K, value: V) returns (r: Outcome)
      requires Valid() && key !in frequency && size < maxSize
      modifies this, store, store.fileStore
      ensures buckets == Added(old(buckets), key)
      ensures r.Fail? <==> (!(|old(store.memoryStore)| < store.maxMemorySize)
        && !(store.diskEnabled && old(store.fileStore.size) < store.maxMemorySize))
      ensures r.Fail? ==> (r.error == StoreExhausted && Held() && frequency == old(frequency)
        && disk == old(disk) && size == old(size) && Contents() == old(Contents())
        && store.memoryStore == old(store.memoryStore) && store.fileStore.size == old(store.fileStore.size))
      ensures r.Pass? ==> (Valid() && frequency == old(frequency)[key := 0] && size == old(size) + 1
        && disk == old(disk)[key := !(|old(store.memoryStore)| < store.maxMemorySize)]
        && Contents() == old(Contents())[key := value])
    {
      InsertStep(buckets, frequency, key);
      buckets := Added(buckets, key);
      var placed := store.Put(key, value);
      if placed.Err? {
        return Fail(placed.error);
      }
      AddTier(disk, old(store.memoryStore), old(store.onDisk), key, value, placed.value);
      Register(key, placed.value);
      r := Pass;
    }

    /** The node of a newly placed key: count 0, the tier the store chose, and
        one more in the counter. */
    method Register(key: K, toDisk: bool)
      requires key !in frequency && frequency.Keys == disk.Keys && size == |frequency| && size < maxSize
      requires Indexed(buckets, frequency[key := 0]) && Tiered(disk[key := toDisk], store.memoryStore, store.onDisk)
      requires store.Valid() && 1 <= maxSize && |store.memoryStore| <= store.maxMemorySize
      modifies this
      ensures Valid()
      ensures frequency == old(frequency)[key := 0] && disk == old(disk)[key := toDisk]
      ensures size == old(size) + 1 && buckets == old(buckets)
    {
      frequency := frequency[key := 0];
      disk := disk[key := toDisk];
      size := size + 1;
    }

    /** put: an existing key is updated in its tier (or left alone) and keeps
        its count; a new key evicts the victim when the cache is full and joins
        the count-0 bucket. Put of a new key succeeds whenever memory has room,
        and fails only when both tiers are full. */
    method Put(key: K, value: V) returns (r: Outcome)
      requires Valid()
      modifies this, store, store.fileStore
      ensures old(key in frequency) ==> (r == Pass && Valid() && frequency == old(frequency)
        && buckets == old(buckets) && disk == old(disk) && size == old(size)
        && Contents() == if updateExisting then old(Contents())[key := value] else old(Contents()))
      ensures !old(key in frequency) && old(size) == maxSize ==>
        Victim(old(buckets)).Some? && Victim(old(buckets)).value in old(frequency)
      ensures !old(key in frequency) ==> (
        var victim := if old(size) == maxSize then Victim(old(buckets)) else None;
        var memory := old(|store.memoryStore|) - (if victim.Some? && !old(disk)[victim.value] then 1 else 0);
        var kept := Without(old(Contents()), victim);
        && buckets == Added(Evicted(old(buckets), old(frequency), victim), key)
        && (r.Pass? ==> (Valid() && Contents() == kept[key := value]
          && frequency == Without(old(frequency), victim)[key := 0]
          && disk == Without(old(disk), victim)[key := !(memory < store.maxMemorySize)]
          && size == (if victim.Some? then old(size) else old(size) + 1)))
        && (r.Fail? <==> (!(memory < store.maxMemorySize)
          && !(store.diskEnabled && old(store.fileStore.size) - (if victim.Some? && old(disk)[victim.value] then 1 else 0) < store.maxMemorySize)))
        && (r.Fail? ==> (r.error == StoreExhausted && Held() && Contents() == kept
          && frequency == Without(old(frequency), victim) && disk == Without(old(disk), victim))))
    {
      if key in frequency {
        if updateExisting {
          UpdateTier(disk, store.memoryStore, store.onDisk, key, value);
          store.UpdateValue(key, disk[key], value);
        }
        return Pass;
      }
      r := PutNew(key, value);
    }

    /** The new-key path of put: eviction when the cache is full, then Insert. */
    method PutNew(key: K, value: V) returns (r: Outcome)
      requires Valid() && key !in frequency
      modifies this, store, store.fileStore
      ensures old(size) == maxSize ==> Victim(old(buckets)).Some? && Victim(old(buckets)).value in old(frequency)
      ensures var victim := if old(size) == maxSize then Victim(old(buckets)) else None;
        var memory := old(|store.memoryStore|) - (if victim.Some? && !old(disk)[victim.value] then 1 else 0);
        var kept := Without(old(Contents()), victim);
        && buckets == Added(Evicted(old(buckets), old(frequency), victim), key)
        && (r.Pass? ==> (Valid() && Contents() == kept[key := value]
          && frequency == Without(old(frequency), victim)[key := 0]
          && disk == Without(old(disk), victim)[key := !(memory < store.maxMemorySize)]
          && size == (if victim.Some? then old(size) else old(size) + 1)))
        && (r.Fail? <==> (!(memory < store.maxMemorySize)
          && !(store.diskEnabled && old(store.fileStore.size) - (if victim.Some? && old(disk)[victim.value] then 1 else 0) < store.maxMemorySize)))
        && (r.Fail? ==> (r.error == StoreExhausted && Held() && Contents() == kept
          && frequency == Without(old(frequency), victim) && disk == Without(old(disk), victim)))
    {
      if size == maxSize {
        EvictLeastFrequentItem();
      }
      r := Insert(key, value);
    }

    /** The count step of get: `key` leaves the bucket of its count and joins
        the next one, which is created when missing. */
    method Touch(key: K)
      requires Indexed(buckets, frequency) && frequency.Keys == disk.Keys && key in frequency
      modifies this
      ensures Indexed(buckets, frequency) && frequency.Keys == disk.Keys && disk == old(disk) && size == old(size)
      ensures frequency == Counted(old(frequency), key) && |frequency| == old(|frequency|)
      ensures buckets == Bumped(old(buckets), old(frequency)[key], key)
    {
      BumpStep(buckets, frequency, key);
      var f := frequency[key];
      buckets := Bumped(buckets, f, key);
      frequency := Counted(frequency, key);
    }

    /** The swap of get: a memory entry goes to disk and a disk entry comes to
        memory, so memory holds as many values as before. */
    method SwapTiers(demoted: K, promoted: K)
      requires Linked() && demoted in disk && !disk[demoted] && promoted in disk && disk[promoted]
      requires store.diskEnabled
      modifies this, store, store.fileStore
      ensures Linked() && Contents() == old(Contents())
      ensures frequency == old(frequency) && buckets == old(buckets) && size == old(size)
      ensures disk == old(disk)[demoted := true][promoted := false]
      ensures |store.memoryStore| == old(|store.memoryStore|)
    {
      Evacuate(demoted);
      Promote(promoted);
    }

    /** The demotion half of the swap: the memory entry `k` goes to disk. */
    method Evacuate(k: K)
      requires Linked() && k in disk && !disk[k] && store.diskEnabled
      modifies this, store, store.fileStore
      ensures Linked() && Contents() == old(Contents())
      ensures frequency == old(frequency) && buckets == old(buckets) && size == old(size)
      ensures disk == old(disk)[k := true]
      ensures |store.memoryStore| == old(|store.memoryStore|) - 1
    {
      SwitchTier(disk, store.memoryStore, store.onDisk, k);
      var moved := store.SwitchStore(k, false);
      disk := disk[k := moved];
    }

    /** get: a miss answers null and changes nothing. A hit answers the value,
        adds one to the key's count, and, for a disk entry with disk enabled,
        swaps it with the entry the demotion scan picks below its new count,
        when there is one. */
    method Get(key: K) returns (r: Option<V>)
      requires Valid()
      modifies this, store, store.fileStore
      ensures Valid() && Contents() == old(Contents()) && size == old(size)
      ensures key !in old(frequency) ==> (r == None && frequency == old(frequency)
        && buckets == old(buckets) && disk == old(disk))
      ensures key in old(frequency) ==> (r == Some(old(Contents())[key])
        && frequency == Counted(old(frequency), key)
        && buckets == Bumped(old(buckets), old(frequency)[key], key)
        && |store.memoryStore| == old(|store.memoryStore|))
      ensures key in old(frequency) ==> (
        var pick := Demotion(buckets, old(disk), old(frequency)[key]);
        disk == if store.diskEnabled && old(disk)[key] && pick.Some?
          then old(disk)[pick.value := true][key := false] else old(disk))
    {
      if key !in frequency {
        return None;
      }
      // The value is read before the bookkeeping rather than after it, as
      // the source does; Rebalance keeps every answer, so it is the same value.
      r := store.GetValue(key, disk[key]);
      Rebalance(key);
    }

    /** The bookkeeping of a get hit. A disk entry, with disk enabled, changes
        places with the entry the demotion scan picks below its new count; the
        scan sees the buckets as they are once `key` has moved up, so the
        swap can be done first and the count step (Touch) last. */
    method Rebalance(key: K)
      requires Valid() && key in frequency
      modifies this, store, store.fileStore
      ensures Valid() && Contents() == old(Contents()) && size == old(size)
      ensures frequency == Counted(old(frequency), key) && |frequency| == old(|frequency|)
      ensures buckets == Bumped(old(buckets), old(frequency)[key], key)
      ensures |store.memoryStore| == old(|store.memoryStore|)
      ensures var pick := Demotion(buckets, old(disk), old(frequency)[key]);
        disk == if store.diskEnabled && old(disk)[key] && pick.Some?
          then old(disk)[pick.value := true][key := false] else old(disk)
    {
      Demote(key);
      Touch(key);
    }

    /** The tier step of a get hit: a disk entry, with disk enabled, changes
        places with the entry the demotion scan picks below its new count. */
    method Demote(key: K)
      requires Linked() && key in frequency
      modifies this, store, store.fileStore
      ensures Linked() && Contents() == old(Contents())
      ensures frequency == old(frequency) && buckets == old(buckets) && size == old(size)
      ensures |store.memoryStore| == old(|store.memoryStore|)
      ensures var pick := Demotion(Bumped(buckets, frequency[key], key), old(disk), frequency[key]);
        disk == if store.diskEnabled && old(disk)[key] && pick.Some?
          then old(disk)[pick.value := true][key := false] else old(disk)
    {
      if store.diskEnabled && disk[key] {
        var pick := FindDemotion(Bumped(buckets, frequency[key], key), disk, frequency[key]);
        if pick.Some? {
          SwapTiers(pick.value, key);
        }
      }
    }

    /** The promotion step of remove: the disk entry `k` comes back to memory. */
    method Promote(k: K)
      requires Linked() && k in disk && disk[k]
      modifies this, store, store.fileStore
      ensures Linked() && Contents() == old(Contents())
      ensures frequency == old(frequency) && buckets == old(buckets) && size == old(size)
      ensures disk == old(disk)[k := false]
      ensures |store.memoryStore| == old(|store.memoryStore|) + 1
    {
      SwitchTier(disk, store.memoryStore, store.onDisk, k);
      var moved := store.SwitchStore(k, true);
      disk := disk[k := moved];
    }

    /** The refill step of remove: for a memory entry with disk enabled, the
        disk entry the intended scan finds, if any, comes back to memory;
        otherwise nothing happens. */
    method Refill(key: K) returns (promoted: Option<K>)
      requires Linked() && key in frequency
      modifies this, store, store.fileStore
      ensures Linked() && Contents() == old(Contents())
      ensures frequency == old(frequency) && buckets == old(buckets) && size == old(size)
      ensures promoted == if store.diskEnabled && !old(disk)[key]
        then Promotion(old(buckets), old(disk), key, old(frequency)[key], old(frequency)[key]) else None
      ensures disk == Restored(old(disk), promoted) && key in disk && disk[key] == old(disk)[key]
      ensures |store.memoryStore| == if promoted.Some? then old(|store.memoryStore|) + 1 else old(|store.memoryStore|)
    {
      promoted := None;
      if !disk[key] && store.diskEnabled {
        promoted := FindPromotion(buckets, disk, key, frequency[key]);
        if promoted.Some? {
          Promote(promoted.value);
        }
      }
    }

    /** remove: a miss answers null and changes nothing. A hit answers the
        value and drops the key from its bucket, its tier and the node map, and
        the counter goes down by one; removing a memory entry with disk enabled
        first brings back to memory the disk entry the intended scan finds. */
    method Remove(key: K) returns (r: Option<V>)
      requires Valid()
      modifies this, store, store.fileStore
      ensures Valid() && Contents() == old(Contents()) - {key}
      ensures key !in old(frequency) ==> (r == None && frequency == old(frequency)
        && buckets == old(buckets) && disk == old(disk) && size == old(size))
      ensures key in old(frequency) ==> (r == Some(old(Contents())[key]) && size == old(size) - 1
        && frequency == old(frequency) - {key}
        && buckets == old(buckets)[old(frequency)[key] := Erase(old(buckets)[old(frequency)[key]], key)])
      ensures key in old(frequency) ==> (
        var f := old(frequency)[key];
        var promoted := if store.diskEnabled && !old(disk)[key] then Promotion(old(buckets), old(disk), key, f, f) else None;
        disk == Restored(old(disk), promoted) - {key})
    {
      if key !in frequency {
        return None;
      }
      r := RemoveHit(key);
    }

    /** The hit path of remove: the refill step, then the key's node goes. */
    method RemoveHit(key: K) returns (r: Option<V>)
      requires Valid() && key in frequency
      modifies this, store, store.fileStore
      ensures Valid() && Contents() == old(Contents()) - {key}
      ensures r == Some(old(Contents())[key]) && size == old(size) - 1
      ensures frequency == old(frequency) - {key}
      ensures buckets == old(buckets)[old(frequency)[key] := Erase(old(buckets)[old(frequency)[key]], key)]
      ensures var f := old(frequency)[key];
        var promoted := if store.diskEnabled && !old(disk)[key] then Promotion(old(buckets), old(disk), key, f, f) else None;
        disk == Restored(old(disk), promoted) - {key}
    {
      size := size - 1;
      var _ := Refill(key);
      r := Discard(key);
    }

    /** remove as the source writes it: the scan reads the wrong bucket (see
        PromotionAsWritten) and the counter is never decremented, so after a
        hit it counts one entry more than the cache holds. */
    method RemoveAsWritten(key: K) returns (r: Option<V>)
      requires Valid()
      modifies this, store, store.fileStore
      ensures Linked() && Contents() == old(Contents()) - {key} && size == old(size)
      ensures key !in old(frequency) ==> r == None && size == |frequency|
      ensures key in old(frequency) ==> r == Some(old(Contents())[key]) && size == |frequency| + 1
      ensures key in old(frequency) ==> (
        var f := old(frequency)[key];
        var promoted := if store.diskEnabled && !old(disk)[key] then PromotionAsWritten(old(buckets), old(disk), key, f) else None;
        disk == (if promoted.Some? then old(disk)[promoted.value := false] else old(disk)) - {key})
    {
      if key !in frequency {
        return None;
      }
      var f := frequency[key];
      if !disk[key] && store.diskEnabled {
        var firstPrevEntry := FindPromotionAsWritten(buckets, disk, key, f);
        if firstPrevEntry.Some? {
          Promote(firstPrevEntry.value);
        }
      }
      r := Discard(key);
    }

    /** containsKey as the source writes it: ConcurrentHashMap.contains looks
        for a value, and no node of the map is ever equal to a key, so the
        answer is false for every key, cached or not. */
    function ContainsKeyAsWritten(key: K): (r: bool)
      ensures !r
    {
      false
    }

    /** containsKey as intended: whether the node map has the key. */
    function ContainsKey(key: K): (r: bool)
      reads this, store, store.fileStore
      requires Held()
      ensures r <==> key in Contents()
    {
      key in frequency
    }

    /** A cached key is one the written containsKey denies. */
    lemma {:induction false} ContainsKeyAsWrittenMisses(key: K)
      requires Held() && key in Contents()
      ensures ContainsKeyAsWritten(key) != ContainsKey(key)
    {
    }

    /** isEmpty: whether the node map is empty. */
    function IsEmpty(): (r: bool)
      reads this, store, store.fileStore
      requires Held()
      ensures r <==> Contents() == map[]
    {
      assert Contents().Keys == frequency.Keys;
      |frequency| == 0
    }

    /** size: the counter, which counts the cached entries. */
    function Size(): (r: int)
      reads this, store, store.fileStore
      requires Valid()
      ensures r == |Contents()|
    {
      assert Contents().Keys == frequency.Keys;
      size
    }

    /** clear: the node map, every count and both tiers are emptied. */
    method Clear()
      requires Valid()
      modifies this, store, store.fileStore
      ensures Valid() && Contents() == map[] && buckets == [] && size == 0
    {
      store.Clear();
      Reset();
    }

    /** The node map, the buckets and the counter start over, once the store
        is cleared. */
    method Reset()
      requires store.Valid() && store.memoryStore == map[] && store.onDisk == map[]
      requires 1 <= maxSize && 0 <= store.maxMemorySize
      modifies this
      ensures Valid() && frequency == map[] && disk == map[] && buckets == [] && size == 0
    {
      frequency := map[];
      buckets := [];
      disk := map[];
      size := 0;
    }
  }
}
