/** The configuration a cache is created from. Every setter changes one
    setting (diskLocation also switches disk caching on) and hands the same
    builder back, so the fluent chain is a sequence of calls on one object. */
module CacheBuilding {
  import opened CacheBasics

  class CacheBuilder {
    var diskEnabled: bool
    var diskLocation: string
    var maxSize: int
    var updateExisting: bool

    /** A capacity the cache can be created with: at least one entry. */
    ghost predicate Valid()
      reads this
    {
      maxSize >= 1
    }

    /** The defaults: disk caching off, the location under the user's home,
        the default capacity, and put of an existing key updating its value.
        The default capacity is a parameter, since the constant is not defined
        anywhere in the program. */
    constructor (home: string, defaultMaxSize: int)
      ensures diskEnabled == DefaultDiskEnabled && !diskEnabled
      ensures diskLocation == DefaultDiskLocation(home)
      ensures maxSize == defaultMaxSize
      ensures updateExisting == DefaultUpdateExisting && updateExisting
      ensures Valid() <==> defaultMaxSize >= 1
    {
      diskEnabled := DefaultDiskEnabled;
      diskLocation := DefaultDiskLocation(home);
      maxSize := defaultMaxSize;
      updateExisting := DefaultUpdateExisting;
    }

    /** enableDiskCaching: disk caching is on and nothing else changes. */
    method EnableDiskCaching()
      modifies this
      ensures diskEnabled
      ensures diskLocation == old(diskLocation) && maxSize == old(maxSize)
      ensures updateExisting == old(updateExisting)
      ensures old(Valid()) ==> Valid()
    {
      diskEnabled := true;
    }

    /** diskLocation: the location is kept as given (no path check) and disk
        caching is switched on with it. */
    method DiskLocation(location: string)
      modifies this
      ensures diskEnabled && diskLocation == location
      ensures maxSize == old(maxSize) && updateExisting == old(updateExisting)
      ensures old(Valid()) ==> Valid()
    {
      diskEnabled := true;
      diskLocation := location;
    }

    /** maxSize: a size below 1 is refused with an exception and the builder
        keeps its capacity; any other size becomes the capacity. */
    method MaxSize(size: int) returns (r: Outcome)
      modifies this
      ensures r.Fail? <==> size < 1
      ensures r.Fail? ==> r.error == InvalidMaxSize && maxSize == old(maxSize)
      ensures r.Pass? ==> maxSize == size && Valid()
      ensures diskEnabled == old(diskEnabled) && diskLocation == old(diskLocation)
      ensures updateExisting == old(updateExisting)
      ensures old(Valid()) ==> Valid()
    {
      if size < 1 {
        return Fail(InvalidMaxSize);
      }
      maxSize := size;
      r := Pass;
    }

    /** updateExisting: whether put of a cached key overwrites its value. */
    method UpdateExisting(update: bool)
      modifies this
      ensures updateExisting == update
      ensures diskEnabled == old(diskEnabled) && diskLocation == old(diskLocation)
      ensures maxSize == old(maxSize)
      ensures old(Valid()) ==> Valid()
    {
      updateExisting := update;
    }
  }
}
