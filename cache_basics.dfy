/** Values shared by every part of the cache model: the Java `null` / exception
    outcomes as Option and Result, and facts about sequences of distinct keys
    (the recency order and the frequency buckets are such sequences). */
module CacheBasics {

  datatype Option<T> = None | Some(value: T)

  /** File.separator, taken as the POSIX one. */
  const Separator: char := '/'

  /** CacheDefaults.DEFAULT_DISK_LOCATION for a user whose home directory is `home`. */
  function DefaultDiskLocation(home: string): string {
    home + [Separator] + ".jcache" + [Separator]
  }

  /** CacheDefaults.DEFAULT_DISK_ENABLED */
  const DefaultDiskEnabled := false

  /** CacheDefaults.DEFAULT_UPDATE_EXISTING */
  const DefaultUpdateExisting := true

  /** CacheDefaults.DEFAULT_MAX_SIZE_DISK, which StoreManager uses for both tiers. */
  const DefaultMaxSizeDisk := 1000

  /** The exceptions the cache raises, by cause. */
  datatype Error =
    | StoreExhausted      // StoreManager.put with no room in either tier
    | InvalidMaxSize      // CacheBuilder.maxSize with a size below 1
    | NullDereference     // a field read through a null reference

  datatype Result<T> = Ok(value: T) | Err(error: Error)

  /** The outcome of a Java method that returns nothing but may throw. */
  datatype Outcome = Pass | Fail(error: Error)

  /** No key occurs twice. */
  predicate Distinct<T(==)>(s: seq<T>) {
    forall i, j :: 0 <= i < j < |s| ==> s[i] != s[j]
  }

  /** Position of `x` in `s`. */
  function IndexOf<T(==)>(s: seq<T>, x: T): (i: nat)
    requires x in s
    ensures i < |s| && s[i] == x
    ensures forall j :: 0 <= j < i ==> s[j] != x
  {
    if s[0] == x then 0 else 1 + IndexOf(s[1..], x)
  }

  /** `s` with position `i` taken out, everything else in its order. */
  function RemoveAt<T>(s: seq<T>, i: nat): (r: seq<T>)
    requires i < |s|
    ensures |r| == |s| - 1
    ensures forall j :: 0 <= j < i ==> r[j] == s[j]
    ensures forall j :: i <= j < |r| ==> r[j] == s[j + 1]
  {
    s[..i] + s[i + 1..]
  }

  /** Every occurrence of `x` dropped from `s`. */
  function Erase<T(==)>(s: seq<T>, x: T): (r: seq<T>)
    ensures forall i :: 0 <= i < |r| ==> r[i] in s && r[i] != x
    ensures forall i :: 0 <= i < |s| && s[i] != x ==> s[i] in r
  {
    if s == [] then []
    else if s[0] == x then Erase(s[1..], x)
    else [s[0]] + Erase(s[1..], x)
  }

  lemma {:induction false} EraseRemoveAt<T>(s: seq<T>, i: nat)
    requires Distinct(s) && i < |s|
    ensures RemoveAt(s, i) == Erase(s, s[i])
  {
    if i == 0 {
      EraseAbsent(s[1..], s[0]);
      assert RemoveAt(s, 0) == s[1..];
    } else {
      EraseRemoveAt(s[1..], i - 1);
      assert RemoveAt(s[1..], i - 1) == RemoveAt(s, i)[1..];
    }
  }

  lemma {:induction false} EraseAbsent<T>(s: seq<T>, x: T)
    requires x !in s
    ensures Erase(s, x) == s
  {
    if s != [] {
      EraseAbsent(s[1..], x);
    }
  }

  lemma {:induction false} DistinctRemoveAt<T>(s: seq<T>, i: nat)
    requires Distinct(s) && i < |s|
    ensures Distinct(RemoveAt(s, i))
    ensures s[i] !in RemoveAt(s, i)
  {
  }

  /** A sequence of distinct elements has as many elements as its set. */
  lemma {:induction false} DistinctCardinality<T>(s: seq<T>)
    requires Distinct(s)
    ensures |set x | x in s| == |s|
  {
    if s != [] {
      DistinctCardinality(s[1..]);
      assert (set x | x in s) == (set x | x in s[1..]) + {s[0]};
      assert s[0] !in s[1..];
    }
  }
}
