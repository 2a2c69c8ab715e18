/** The pointers of the LRU engine's doubly linked list exactly as the Java
    code sets them, with the node objects as an arena: a node is an index into
    `nodes` and a null reference is -1. The order-level engine (LruCaches)
    abstracts these pointers into a sequence; this model keeps them, with the
    keys each tier holds, so that the places where put and remove go wrong can
    be shown: the self-loop of the first node, which lets put overfill memory,
    and the two places where remove dereferences a null. */
module LruLinks {
  import opened CacheBasics

  /** A node: the key of its entry (None for the sentinel, whose entry is
      null), its entry's diskStored flag, and its neighbours. */
  datatype Node<K> = Node(key: Option<K>, diskStored: bool, previous: int, next: int)

  /** The fields of LRUCache that hold references, the node map `cache`, the
      counter, whether disk caching is enabled, and the keys of the memory map
      and of the files of the store (the file counter is the size of the
      latter). */
  datatype Links<K> = Links(
    nodes: seq<Node<K>>,
    cache: map<K, nat>,
    leastRecently: nat,
    mostRecently: nat,
    leastRecentlyMemory: int,
    size: int,
    diskEnabled: bool,
    memory: set<K>,
    onDisk: set<K>)

  /** Every reference is null or names a node; the three markers and the node
      map never hold a null except leastRecentlyMemory, which can run off the
      most recent end. */
  ghost predicate Wf<K>(l: Links<K>)
  {
    && l.leastRecently < |l.nodes| && l.mostRecently < |l.nodes| && -1 <= l.leastRecentlyMemory < |l.nodes|
    && (forall k :: k in l.cache ==> l.cache[k] < |l.nodes|)
    && (forall i :: 0 <= i < |l.nodes| ==> -1 <= l.nodes[i].previous < |l.nodes| && -1 <= l.nodes[i].next < |l.nodes|)
  }

  /** initializeStrategy: one sentinel node with a null entry, which all three
      markers point at, and both tiers empty. */
  function Initial<K>(diskEnabled: bool): (l: Links<K>)
    ensures Wf(l) && l.cache == map[] && l.size == 0 && l.memory == {} && l.onDisk == {}
    ensures l.nodes[l.mostRecently].key == None
    ensures l.leastRecently == l.mostRecently == l.leastRecentlyMemory
  {
    Links([Node(None, false, -1, -1)], map[], 0, 0, 0, 0, diskEnabled, {}, {})
  }

  /** switchStore on the entry of node `i`: a disk entry's key moves to the
      memory map and its flag goes down, a memory entry's key moves to the
      files and its flag goes up. */
  function Switch<K>(l: Links<K>, i: nat): (r: Links<K>)
    requires Wf(l) && i < |l.nodes| && l.nodes[i].key.Some?
    ensures Wf(r) && |r.nodes| == |l.nodes| && r.nodes[i].diskStored == !l.nodes[i].diskStored
    ensures forall j :: 0 <= j < |l.nodes| && j != i ==> r.nodes[j] == l.nodes[j]
    ensures r.nodes[i].key == l.nodes[i].key && r.nodes[i].previous == l.nodes[i].previous
    ensures r.nodes[i].next == l.nodes[i].next
    ensures var k := l.nodes[i].key.value;
      if l.nodes[i].diskStored then r.memory == l.memory + {k} && r.onDisk == l.onDisk - {k}
      else r.memory == l.memory - {k} && r.onDisk == l.onDisk + {k}
    ensures r.cache == l.cache && r.size == l.size && r.leastRecently == l.leastRecently
    ensures r.mostRecently == l.mostRecently && r.leastRecentlyMemory == l.leastRecentlyMemory
  {
    var k := l.nodes[i].key.value;
    var flipped := l.nodes[i := l.nodes[i].(diskStored := !l.nodes[i].diskStored)];
    if l.nodes[i].diskStored then l.(nodes := flipped, memory := l.memory + {k}, onDisk := l.onDisk - {k})
    else l.(nodes := flipped, memory := l.memory - {k}, onDisk := l.onDisk + {k})
  }

  /** demoteLeastRecentMemory as written: with disk enabled and the memory map
      at its bound, the entry of the least recent memory node is switched,
      whichever tier it is in, and the marker moves to that node's next. A
      null marker or the sentinel's null entry throws. */
  function DemoteAsWritten<K>(l: Links<K>, maxMemory: int): (r: Result<Links<K>>)
    requires Wf(l)
    ensures r.Err? <==> (l.diskEnabled && |l.memory| == maxMemory
      && (l.leastRecentlyMemory == -1 || l.nodes[l.leastRecentlyMemory].key.None?))
    ensures r.Err? ==> r.error == NullDereference
    ensures r.Ok? ==> (Wf(r.value) && |r.value.nodes| == |l.nodes| && r.value.cache == l.cache
      && r.value.size == l.size && r.value.leastRecently == l.leastRecently
      && r.value.mostRecently == l.mostRecently && r.value.diskEnabled == l.diskEnabled)
    ensures r.Ok? && !(l.diskEnabled && |l.memory| == maxMemory) ==> r.value == l
    ensures r.Ok? && l.diskEnabled && |l.memory| == maxMemory ==>
      var n := l.nodes[l.leastRecentlyMemory];
      && r.value.leastRecentlyMemory == n.next
      && r.value.nodes[l.leastRecentlyMemory].diskStored == !n.diskStored
      && (n.diskStored ==> n.key.value in r.value.memory)
      && (!n.diskStored ==> n.key.value in r.value.onDisk)
  {
    if !(l.diskEnabled && |l.memory| == maxMemory) then Ok(l)
    else if l.leastRecentlyMemory == -1 then Err(NullDereference)
    else
      var i := l.leastRecentlyMemory;
      if l.nodes[i].key.None? then Err(NullDereference)
      else Ok(Switch(l, i).(leastRecentlyMemory := l.nodes[i].next))
  }

  /** The eviction step of put as written: with the counter at the maximum,
      the least recent node's key leaves the node map, its value leaves the
      tier its flag names, its next becomes the least recent node and loses
      its previous. The sentinel's null entry or a null next throws. */
  function EvictAsWritten<K>(l: Links<K>, maxSize: int): (r: Result<Links<K>>)
    requires Wf(l)
    ensures r.Err? <==> (l.size == maxSize
      && (l.nodes[l.leastRecently].key.None? || l.nodes[l.leastRecently].next == -1))
    ensures r.Err? ==> r.error == NullDereference
    ensures r.Ok? ==> (Wf(r.value) && |r.value.nodes| == |l.nodes| && r.value.cache.Keys <= l.cache.Keys
      && r.value.mostRecently == l.mostRecently && r.value.leastRecentlyMemory == l.leastRecentlyMemory
      && r.value.diskEnabled == l.diskEnabled)
    ensures r.Ok? && l.size != maxSize ==> r.value == l
    ensures r.Ok? && l.size == maxSize ==>
      var n := l.nodes[l.leastRecently];
      && r.value.cache == l.cache - {n.key.value} && r.value.size == l.size - 1
      && r.value.leastRecently == n.next && r.value.nodes[n.next].previous == -1
      && r.value.memory == (if n.diskStored then l.memory else l.memory - {n.key.value})
      && r.value.onDisk == (if n.diskStored then l.onDisk - {n.key.value} else l.onDisk)
  {
    if l.size != maxSize then Ok(l)
    else
      var n := l.nodes[l.leastRecently];
      if n.key.None? || n.next == -1 then Err(NullDereference)
      else
        var k := n.key.value;
        var stored := if n.diskStored then l.(onDisk := l.onDisk - {k}) else l.(memory := l.memory - {k});
        var unmapped := stored.(cache := l.cache - {k});
        var cut := WithNode(unmapped, n.next, unmapped.nodes[n.next].(previous := -1));
        Ok(cut.(leastRecently := n.next, size := l.size - 1))
  }

  /** StoreManager.put as written: memory while the memory map is below the
      bound, else disk while disk is enabled and the file counter is below the
      same bound, else it throws. The answer is the new entry's diskStored. */
  function PlaceAsWritten<K>(l: Links<K>, maxMemory: int): (r: Result<bool>)
    ensures r.Ok? <==> |l.memory| < maxMemory || (l.diskEnabled && |l.onDisk| < maxMemory)
    ensures r.Ok? ==> (r.value <==> !(|l.memory| < maxMemory))
    ensures r.Err? ==> r.error == StoreExhausted
  {
    if |l.memory| < maxMemory then Ok(false)
    else if l.diskEnabled && |l.onDisk| < maxMemory then Ok(true)
    else Err(StoreExhausted)
  }

  /** The linking steps of put for a new key whose entry was placed in the
      tier `toDisk` names: the node is created with the most recent node as
      its previous and becomes the most recent; the first node of an empty
      list also becomes the least recent and least recent memory node, and its
      next points at itself. */
  function LinkAsWritten<K>(l: Links<K>, key: K, toDisk: bool): (r: Links<K>)
    requires Wf(l) && key !in l.cache
    ensures Wf(r) && r.cache == l.cache[key := |l.nodes|] && r.size == l.size + 1
    ensures |r.nodes| == |l.nodes| + 1 && r.diskEnabled == l.diskEnabled
    ensures r.mostRecently == |l.nodes| && r.nodes[r.mostRecently].previous == l.mostRecently
    ensures r.nodes[r.mostRecently].key == Some(key) && r.nodes[r.mostRecently].diskStored == toDisk
    ensures r.nodes[r.mostRecently].next == if l.size == 0 then r.mostRecently else -1
    ensures l.size == 0 ==> r.leastRecently == r.leastRecentlyMemory == |l.nodes|
    ensures l.size != 0 ==> r.leastRecently == l.leastRecently && r.leastRecentlyMemory == l.leastRecentlyMemory
    ensures toDisk ==> r.memory == l.memory && r.onDisk == l.onDisk + {key}
    ensures !toDisk ==> r.memory == l.memory + {key} && r.onDisk == l.onDisk
  {
    var id := |l.nodes|;
    var created := l.nodes + [Node(Some(key), toDisk, l.mostRecently, -1)];
    var nodes := created[l.mostRecently := created[l.mostRecently].(next := id)];
    var stored := if toDisk then l.(onDisk := l.onDisk + {key}) else l.(memory := l.memory + {key});
    var linked := stored.(nodes := nodes, cache := l.cache[key := id], mostRecently := id);
    var first := if l.size == 0 then
        linked.(leastRecently := id, leastRecentlyMemory := id, nodes := nodes[id := nodes[id].(next := id)])
      else linked;
    first.(size := l.size + 1)
  }

  /** put as written: an existing key changes no pointer; a new key first
      demotes, then evicts when the counter is at the maximum, then is placed
      by the store and linked as the most recent node. */
  function PutAsWritten<K>(l: Links<K>, key: K, maxSize: int, maxMemory: int): (r: Result<Links<K>>)
    requires Wf(l)
    ensures key in l.cache ==> r == Ok(l)
    ensures r.Err? ==> r.error == NullDereference || r.error == StoreExhausted
    ensures r.Ok? ==> Wf(r.value) && key in r.value.cache && r.value.diskEnabled == l.diskEnabled
    ensures r.Ok? && key !in l.cache ==> (r.value.mostRecently == r.value.cache[key]
      && r.value.nodes[r.value.mostRecently].key == Some(key)
      && (if r.value.nodes[r.value.mostRecently].diskStored then key in r.value.onDisk else key in r.value.memory))
  {
    if key in l.cache then Ok(l)
    else
      var demoted := DemoteAsWritten(l, maxMemory);
      if demoted.Err? then Err(demoted.error)
      else
        var evicted := EvictAsWritten(demoted.value, maxSize);
        if evicted.Err? then Err(evicted.error)
        else
          var placed := PlaceAsWritten(evicted.value, maxMemory);
          if placed.Err? then Err(placed.error)
          else Ok(LinkAsWritten(evicted.value, key, placed.value))
  }

  /** promoteLeastRecentMemory as written: with disk enabled, the node before
      the least recent memory node is read through its entry, which for the
      sentinel is null; a null marker throws too. A disk entry there is
      switched to memory and the marker moves onto it. */
  function PromoteAsWritten<K>(l: Links<K>): (r: Result<Links<K>>)
    requires Wf(l)
    ensures r.Err? <==> (l.diskEnabled && (l.leastRecentlyMemory == -1
      || (l.nodes[l.leastRecentlyMemory].previous != -1
        && l.nodes[l.nodes[l.leastRecentlyMemory].previous].key == None)))
    ensures r.Err? ==> r.error == NullDereference
    ensures r.Ok? ==> (Wf(r.value) && |r.value.nodes| == |l.nodes| && r.value.cache == l.cache
      && r.value.size == l.size && r.value.leastRecently == l.leastRecently
      && r.value.mostRecently == l.mostRecently)
  {
    if !l.diskEnabled then Ok(l)
    else if l.leastRecentlyMemory == -1 then Err(NullDereference)
    else
      var prev := l.nodes[l.leastRecentlyMemory].previous;
      if prev == -1 then Ok(l)
      else if l.nodes[prev].key.None? then Err(NullDereference)
      else if l.nodes[prev].diskStored then Ok(Switch(l, prev).(leastRecentlyMemory := prev))
      else Ok(l)
  }

  /** One node replaced by one whose references are null or name nodes. */
  function WithNode<K>(l: Links<K>, i: nat, n: Node<K>): (r: Links<K>)
    requires Wf(l) && i < |l.nodes| && -1 <= n.previous < |l.nodes| && -1 <= n.next < |l.nodes|
    ensures Wf(r) && r.nodes == l.nodes[i := n]
    ensures r.cache == l.cache && r.size == l.size && r.mostRecently == l.mostRecently
    ensures r.leastRecently == l.leastRecently && r.leastRecentlyMemory == l.leastRecentlyMemory
    ensures r.memory == l.memory && r.onDisk == l.onDisk && r.diskEnabled == l.diskEnabled
  {
    l.(nodes := l.nodes[i := n])
  }

  /** The unlinking part of remove for the node `c` of `key`, whose neighbours
      were read before the promotion step: the most recent node hands that
      role to its previous, the least recent node to its next, and a middle
      node joins its neighbours; each writes through a neighbour, and a null
      one throws. */
  function UnlinkAsWritten<K>(m: Links<K>, key: K, c: nat, prev: int, next: int): (r: Result<Links<K>>)
    requires Wf(m) && c < |m.nodes| && -1 <= prev < |m.nodes| && -1 <= next < |m.nodes|
    ensures r.Err? ==> r.error == NullDereference
    ensures r.Ok? ==> (Wf(r.value) && r.value.cache == m.cache && r.value.size == m.size - 1
      && r.value.memory == m.memory && r.value.onDisk == m.onDisk)
  {
    var nodes := m.nodes;
    if nodes[m.mostRecently].key.None? then Err(NullDereference)
    else if nodes[m.mostRecently].key == Some(key) then
      if prev == -1 then Err(NullDereference)
      else
        var m1 := WithNode(m, prev, nodes[prev].(next := -1));
        var m2 := WithNode(m1, c, m1.nodes[c].(previous := -1));
        Ok(m2.(mostRecently := prev, size := m.size - 1))
    else if nodes[m.leastRecently].key.None? then Err(NullDereference)
    else if nodes[m.leastRecently].key == Some(key) then
      if next == -1 then Err(NullDereference)
      else
        var m1 := WithNode(m, next, nodes[next].(previous := -1));
        var m2 := WithNode(m1, c, m1.nodes[c].(next := -1));
        Ok(m2.(leastRecently := next, size := m.size - 1))
    else if prev == -1 || next == -1 then Err(NullDereference)
    else
      var m1 := WithNode(m, prev, nodes[prev].(next := next));
      var m2 := WithNode(m1, next, m1.nodes[next].(previous := prev));
      var m3 := WithNode(m2, c, m2.nodes[c].(next := -1));
      var m4 := WithNode(m3, c, m3.nodes[c].(previous := -1));
      Ok(m4.(size := m.size - 1))
  }

  /** remove as written: the key leaves the node map, a memory entry first
      promotes, then the node is unlinked (UnlinkAsWritten) and its value
      leaves the tier its flag names. */
  function RemoveAsWritten<K>(l: Links<K>, key: K): (r: Result<Links<K>>)
    requires Wf(l)
    ensures r.Err? ==> r.error == NullDereference && key in l.cache
    ensures r.Ok? ==> Wf(r.value) && r.value.cache == l.cache - {key}
    ensures r.Ok? ==> r.value.size == if key in l.cache then l.size - 1 else l.size
    ensures r.Ok? && key in l.cache ==>
      if l.nodes[l.cache[key]].diskStored then key !in r.value.onDisk else key !in r.value.memory
  {
    if key !in l.cache then Ok(l)
    else
      var c := l.cache[key];
      var next := l.nodes[c].next;
      var prev := l.nodes[c].previous;
      var unmapped := l.(cache := l.cache - {key});
      var promoted := if !l.nodes[c].diskStored then PromoteAsWritten(unmapped) else Ok(unmapped);
      if promoted.Err? then promoted
      else
        var unlinked := UnlinkAsWritten(promoted.value, key, c, prev, next);
        if unlinked.Err? then unlinked
        else if l.nodes[c].diskStored then Ok(unlinked.value.(onDisk := unlinked.value.onDisk - {key}))
        else Ok(unlinked.value.(memory := unlinked.value.memory - {key}))
  }

  /** The links after one, two and three puts of the keys 1, 2, 3 with disk
      enabled, memory bound 1 and room for three entries, as LRUCache.java
      leaves them. */
  const AfterPutOne: Links<int> :=
    Links([Node(None, false, -1, 1), Node(Some(1), false, 0, 1)],
      map[1 := 1], 1, 1, 1, 1, true, {1}, {})
  const AfterPutTwo: Links<int> :=
    Links([Node(None, false, -1, 1), Node(Some(1), true, 0, 2), Node(Some(2), false, 1, -1)],
      map[1 := 1, 2 := 2], 1, 2, 1, 2, true, {2}, {1})
  const AfterPutThree: Links<int> :=
    Links([Node(None, false, -1, 1), Node(Some(1), false, 0, 2), Node(Some(2), false, 1, 3),
        Node(Some(3), true, 2, -1)],
      map[1 := 1, 2 := 2, 3 := 3], 1, 3, 2, 3, true, {1, 2}, {3})

  /** The first put links node 1 with its next pointing at itself. */
  lemma SelfLoopFirstPut()
    ensures PutAsWritten(Initial<int>(true), 1, 3, 1) == Ok(AfterPutOne)
  {
    var l0 := Initial<int>(true);
    assert DemoteAsWritten(l0, 1) == Ok(l0) && EvictAsWritten(l0, 3) == Ok(l0);
    assert PlaceAsWritten(l0, 1) == Ok(false);
    assert LinkAsWritten(l0, 1, false).nodes == AfterPutOne.nodes;
  }

  /** The demotion of the second put switches node 1 to disk and follows its
      next back to node 1. */
  lemma SelfLoopSecondDemotion()
    ensures DemoteAsWritten(AfterPutOne, 1) == Ok(Switch(AfterPutOne, 1).(leastRecentlyMemory := 1))
    ensures Switch(AfterPutOne, 1).memory == {} && Switch(AfterPutOne, 1).onDisk == {1}
  {
    assert AfterPutOne.memory == {1} && !AfterPutOne.nodes[1].diskStored;
  }

  /** The second put: memory has room again, so node 2 joins it. */
  lemma SelfLoopSecondPut()
    ensures PutAsWritten(AfterPutOne, 2, 3, 1) == Ok(AfterPutTwo)
  {
    SelfLoopSecondDemotion();
    var d := Switch(AfterPutOne, 1).(leastRecentlyMemory := 1);
    assert EvictAsWritten(d, 3) == Ok(d) && PlaceAsWritten(d, 1) == Ok(false);
    assert LinkAsWritten(d, 2, false).nodes == AfterPutTwo.nodes;
  }

  /** The demotion of the third put lands on node 1 again and switches it
      back to memory, next to node 2. */
  lemma SelfLoopThirdDemotion()
    ensures DemoteAsWritten(AfterPutTwo, 1) == Ok(Switch(AfterPutTwo, 1).(leastRecentlyMemory := 2))
    ensures Switch(AfterPutTwo, 1).memory == {1, 2} && Switch(AfterPutTwo, 1).onDisk == {}
  {
    assert AfterPutTwo.memory == {2} && AfterPutTwo.nodes[1].diskStored;
  }

  /** The third put: memory has no room after the demotion, so the new key
      goes to disk. */
  lemma SelfLoopThirdPut()
    ensures PutAsWritten(AfterPutTwo, 3, 3, 1) == Ok(AfterPutThree)
  {
    SelfLoopThirdDemotion();
    var d := Switch(AfterPutTwo, 1).(leastRecentlyMemory := 2);
    assert 1 in d.memory && |d.memory| != 0;
    assert EvictAsWritten(d, 3) == Ok(d) && PlaceAsWritten(d, 1) == Ok(true);
    assert LinkAsWritten(d, 3, true).nodes == AfterPutThree.nodes;
  }

  /** With disk enabled, memory bound 1 and room for three entries: put 1,
      put 2, put 3. The first node's next points at itself, so the demotion in
      the second put leaves the marker on node 1, now on disk, and the third
      put switches node 1 back to memory instead of demoting node 2: memory
      ends holding the two keys 1 and 2, over its bound, and the new key 3
      goes to disk. */
  lemma SelfLoopPutAsWritten()
    ensures var l1 := PutAsWritten(Initial<int>(true), 1, 3, 1);
      && l1.Ok?
      && var l2 := PutAsWritten(l1.value, 2, 3, 1);
      && l2.Ok?
      && var l3 := PutAsWritten(l2.value, 3, 3, 1);
      && l3 == Ok(AfterPutThree) && l3.value.memory == {1, 2}
      && l3.value.onDisk == {3} && l3.value.nodes[l3.value.cache[3]].diskStored
  {
    SelfLoopFirstPut();
    SelfLoopSecondPut();
    SelfLoopThirdPut();
  }

  /** With disk disabled: put 1, put 2, remove 1, remove 2. Removing 1 (the
      least recent) sets the previous of 2 to null, and removing 2, now the
      only and most recent node, writes through that null previous. */
  lemma RemoveOnlyEntryAsWritten()
    ensures var l1 := PutAsWritten(Initial<int>(false), 1, 3, 3);
      && l1.Ok?
      && var l2 := PutAsWritten(l1.value, 2, 3, 3);
      && l2.Ok?
      && RemoveAsWritten(l2.value, 1).Ok?
      && RemoveAsWritten(RemoveAsWritten(l2.value, 1).value, 2) == Err(NullDereference)
  {
    var l0 := Initial<int>(false);
    var l1 := LinkAsWritten(l0, 1, false);
    assert PutAsWritten(l0, 1, 3, 3) == Ok(l1);
    assert l1.nodes[1] == Node(Some(1), false, 0, 1);
    var l2 := LinkAsWritten(l1, 2, false);
    assert PutAsWritten(l1, 2, 3, 3) == Ok(l2);
    assert l2.mostRecently == 2 && l2.leastRecently == 1;
    assert l2.nodes[1] == Node(Some(1), false, 0, 2);
    assert l2.nodes[2] == Node(Some(2), false, 1, -1);
    var l3 := RemoveAsWritten(l2, 1);
    assert l3.value.nodes[2].previous == -1 && l3.value.mostRecently == 2;
  }

  /** With disk enabled: put 1, remove 1. The memory entry 1 promotes first,
      and the node before the least recent memory node is the sentinel, whose
      entry is null. */
  lemma RemoveFirstEntryAsWritten()
    ensures var l1 := PutAsWritten(Initial<int>(true), 1, 3, 3);
      && l1.Ok?
      && RemoveAsWritten(l1.value, 1) == Err(NullDereference)
  {
    var l0 := Initial<int>(true);
    var l1 := LinkAsWritten(l0, 1, false);
    assert PutAsWritten(l0, 1, 3, 3) == Ok(l1);
    assert l1.leastRecentlyMemory == 1 && l1.nodes[1].previous == 0 && l1.nodes[0].key == None;
  }
}
