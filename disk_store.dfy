/** The disk overflow tier: one file per key, a slot counter and a byte counter.
    The file system is the map `files` from path to what the file holds; whether
    a write, read or delete fails is a parameter of the operation. */
module DiskStorage {
  import opened CacheBasics

  /** What a file holds: the serialized value and the file's length in bytes. */
  datatype FileData<V> = FileData(value: V, length: nat)

  function Digit(d: nat): (c: char)
    requires d < 10
    ensures '0' <= c <= '9'
  {
    (('0' as int) + d) as char
  }

  function DigitValue(c: char): int {
    (c as int) - ('0' as int)
  }

  /** Decimal digits of `n`, most significant first. */
  function NatToDecimal(n: nat): (s: string)
    ensures |s| > 0
    ensures forall i :: 0 <= i < |s| ==> '0' <= s[i] <= '9'
  {
    if n < 10 then [Digit(n)] else NatToDecimal(n / 10) + [Digit(n % 10)]
  }

  /** An int as StringBuilder.append(int) writes it: a minus sign, then the digits. */
  function IntToDecimal(n: int): (s: string)
    ensures |s| > 0
  {
    if n < 0 then "-" + NatToDecimal(-n) else NatToDecimal(n)
  }

  /** Reads back a string of decimal digits. */
  function ParseNat(s: string): int
    requires |s| > 0
  {
    if |s| == 1 then DigitValue(s[0])
    else ParseNat(s[..|s| - 1]) * 10 + DigitValue(s[|s| - 1])
  }

  function ParseInt(s: string): int
    requires |s| > 0
  {
    if s[0] == '-' && |s| > 1 then -ParseNat(s[1..]) else ParseNat(s)
  }

  lemma {:induction false} NatDecimalRoundTrip(n: nat)
    ensures ParseNat(NatToDecimal(n)) == n
  {
    if n >= 10 {
      NatDecimalRoundTrip(n / 10);
      var s := NatToDecimal(n);
      assert s[..|s| - 1] == NatToDecimal(n / 10);
    }
  }

  /** Printing an int and reading it back gives the int: the printed form loses nothing. */
  lemma {:induction false} IntDecimalRoundTrip(n: int)
    ensures ParseInt(IntToDecimal(n)) == n
  {
    if n < 0 {
      NatDecimalRoundTrip(-n);
      assert IntToDecimal(n)[1..] == NatToDecimal(-n);
    } else {
      NatDecimalRoundTrip(n);
    }
  }

  /** Two different ints never print the same. */
  lemma {:induction false} DecimalInjective(a: int, b: int)
    ensures IntToDecimal(a) == IntToDecimal(b) ==> a == b
  {
    IntDecimalRoundTrip(a);
    IntDecimalRoundTrip(b);
  }

  /** String.lastIndexOf(char): the last position of `c`, or -1. */
  function LastIndexOf(s: string, c: char): (r: int)
    ensures -1 <= r < |s|
    ensures r >= 0 ==> s[r] == c
    ensures forall i :: r < i < |s| ==> s[i] != c
  {
    if s == [] then -1
    else if s[|s| - 1] == c then |s| - 1
    else LastIndexOf(s[..|s| - 1], c)
  }

  /** The location setDiskLocation keeps: one separator is appended unless the
      last separator is already the last character (which the empty string,
      with lastIndexOf -1 and length - 1 also -1, counts as). */
  function NormalizeLocation(location: string): (r: string)
    ensures |location| > 0 && location[|location| - 1] != Separator ==> r == location + [Separator]
    ensures |location| == 0 || location[|location| - 1] == Separator ==> r == location
  {
    if LastIndexOf(location, Separator) != |location| - 1 then location + [Separator] else location
  }

  /** Normalising twice is normalising once. */
  lemma {:induction false} NormalizeIdempotent(location: string)
    ensures NormalizeLocation(NormalizeLocation(location)) == NormalizeLocation(location)
  {
    var r := NormalizeLocation(location);
    assert |r| == 0 || r[|r| - 1] == Separator;
  }

  class DiskStore<K(!new), V> {
    /** Object.hashCode, an opaque function of the key. */
    const hash: K -> int
    /** Length in bytes of a value once serialized. */
    const lengthOf: V -> nat

    var size: int
    var diskSize: int
    var diskLocation: string
    var files: map<string, FileData<V>>

    constructor (home: string, hash: K -> int, lengthOf: V -> nat)
      ensures size == 0 && diskSize == 0
      ensures diskLocation == DefaultDiskLocation(home) + [Separator] + ".jcache" + [Separator]
      ensures files == map[]
      ensures this.hash == hash && this.lengthOf == lengthOf
    {
      this.hash := hash;
      this.lengthOf := lengthOf;
      size := 0;
      diskSize := 0;
      files := map[];
      diskLocation := NormalizeLocation(DefaultDiskLocation(home) + [Separator] + ".jcache" + [Separator]);
    }

    /** Path of the file holding `key`: the location followed by the key's hash. */
    function FileName(key: K): (path: string)
      reads this
      ensures path == diskLocation + IntToDecimal(hash(key))
      ensures |path| > |diskLocation|
    {
      diskLocation + IntToDecimal(hash(key))
    }

    /** Keys with different hashes get different files; equal hashes share one. */
    lemma {:induction false} FileNameInjective(a: K, b: K)
      ensures FileName(a) == FileName(b) <==> hash(a) == hash(b)
    {
      if FileName(a) == FileName(b) {
        var n := |diskLocation|;
        assert FileName(a)[n..] == IntToDecimal(hash(a));
        assert FileName(b)[n..] == IntToDecimal(hash(b));
        DecimalInjective(hash(a), hash(b));
      }
    }

    /** The value a successful read of `key`'s file yields. */
    function Stored(key: K): Option<V>
      reads this
    {
      var path := FileName(key);
      if path in files then Some(files[path].value) else None
    }

    method SetDiskLocation(location: string)
      modifies this
      ensures diskLocation == NormalizeLocation(location)
      ensures size == old(size) && diskSize == old(diskSize) && files == old(files)
    {
      diskLocation := NormalizeLocation(location);
    }

    /** remove(key): the counters drop only when the delete succeeds, which it
        does when the file exists and `deleteFails` is false. */
    method Remove(key: K, deleteFails: bool)
      modifies this
      ensures var path := old(FileName(key));
        var deleted := path in old(files) && !deleteFails;
        && files == (if deleted then old(files) - {path} else old(files))
        && size == (if deleted then old(size) - 1 else old(size))
        && diskSize == (if deleted then old(diskSize) - old(files)[path].length else old(diskSize))
      ensures diskLocation == old(diskLocation)
      ensures Stored(key) == None || (deleteFails && Stored(key) == old(Stored(key)))
      ensures forall k :: hash(k) != hash(key) ==> Stored(k) == old(Stored(k))
    {
      var path := FileName(key);
      var fileSize := if path in files then files[path].length else 0;
      if path in files && !deleteFails {
        files := files - {path};
        size := size - 1;
        diskSize := diskSize - fileSize;
      }
      forall k | hash(k) != hash(key) ensures Stored(k) == old(Stored(k)) {
        FileNameInjective(k, key);
      }
    }

    /** add(key, value): the file is (over)written and both counters grow, unless
        the write throws, which leaves everything as it was. */
    method Add(key: K, value: V, writeFails: bool)
      modifies this
      ensures var path := old(FileName(key));
        && files == (if writeFails then old(files) else old(files)[path := FileData(value, lengthOf(value))])
        && size == (if writeFails then old(size) else old(size) + 1)
        && diskSize == (if writeFails then old(diskSize) else old(diskSize) + lengthOf(value))
      ensures diskLocation == old(diskLocation)
      ensures !writeFails ==> Stored(key) == Some(value)
      ensures forall k :: hash(k) != hash(key) ==> Stored(k) == old(Stored(k))
    {
      if !writeFails {
        var path := FileName(key);
        files := files[path := FileData(value, lengthOf(value))];
        diskSize := diskSize + lengthOf(value);
        size := size + 1;
      }
      forall k | hash(k) != hash(key) ensures Stored(k) == old(Stored(k)) {
        FileNameInjective(k, key);
      }
    }

    /** addUpdate(key, value, isNew), which StoreManager calls but DiskStore
        does not declare: the key's file is written as add writes it, and only
        a new file (isNew) counts one more; overwriting a file keeps the file
        counter and replaces the old file's length by the new one. */
    method AddUpdate(key: K, value: V, isNew: bool, writeFails: bool)
      modifies this
      ensures var path := old(FileName(key));
        var oldLength := if path in old(files) then old(files)[path].length else 0;
        && files == (if writeFails then old(files) else old(files)[path := FileData(value, lengthOf(value))])
        && size == (if !writeFails && isNew then old(size) + 1 else old(size))
        && diskSize == (if writeFails then old(diskSize)
          else if isNew then old(diskSize) + lengthOf(value)
          else old(diskSize) - oldLength + lengthOf(value))
      ensures diskLocation == old(diskLocation)
      ensures !writeFails ==> Stored(key) == Some(value)
      ensures forall k :: hash(k) != hash(key) ==> Stored(k) == old(Stored(k))
    {
      if isNew {
        Add(key, value, writeFails);
      } else if !writeFails {
        var path := FileName(key);
        var oldLength := if path in files then files[path].length else 0;
        files := files[path := FileData(value, lengthOf(value))];
        diskSize := diskSize - oldLength + lengthOf(value);
        forall k | hash(k) != hash(key) ensures Stored(k) == old(Stored(k)) {
          FileNameInjective(k, key);
        }
      }
    }

    /** getValue(key): the value last written for the key's hash, or null when
        there is no such file or the read throws. */
    method GetValue(key: K, readFails: bool) returns (r: Option<V>)
      ensures r == if readFails then None else Stored(key)
      ensures r.Some? ==> FileName(key) in files && files[FileName(key)].value == r.value
    {
      var path := FileName(key);
      if !readFails && path in files {
        r := Some(files[path].value);
      } else {
        r := None;
      }
    }

    /** clear(): every file under the disk location is deleted and both counters restart. */
    method Clear()
      modifies this
      ensures size == 0 && diskSize == 0
      ensures diskLocation == old(diskLocation)
      ensures forall path :: path in files <==> path in old(files) && !(diskLocation <= path)
      ensures forall key :: Stored(key) == None
    {
      files := map path | path in files && !(diskLocation <= path) :: files[path];
      size := 0;
      diskSize := 0;
    }
  }

  /** A write followed by a read of the same key gives back what was written. */
  method AddThenGet<K(!new), V>(store: DiskStore<K, V>, key: K, value: V) returns (r: Option<V>)
    modifies store
    ensures r == Some(value)
  {
    store.Add(key, value, false);
    r := store.GetValue(key, false);
  }
}
