/** The operating system's memory-mapping primitives, as the W^X block uses
    them. The real calls (mmap/mprotect/munmap on Unix, VirtualAlloc,
    VirtualProtect and VirtualFree on Windows) are foreign code: here each one
    may fail for reasons the caller cannot see, and when it succeeds it changes
    the set of mappings in the way the platform documents. */
module Backend {
  import opened Go

  /** One mapping: its length in bytes, and the length of the leading range
      most recently made read+execute (0 while the mapping is read+write). */
  datatype Region = Region(size: nat, executable: nat)

  /** A bound above every element of a finite set of addresses. */
  ghost function Above(s: set<nat>): (r: nat)
    ensures r > 0
    ensures forall k :: k in s ==> k < r
  {
    if s == {} then 1
    else
      var m :| m in s;
      var rest := Above(s - {m});
      assert forall k :: k in s ==> k == m || k in s - {m};
      if m < rest then rest else m + 1
  }

  /** The process's view of the operating system's anonymous mappings, keyed
      by base address. Address 0 is never a mapping. */
  class Os {
    var regions: map<nat, Region>

    ghost predicate Valid()
      reads this
    {
      0 !in regions
    }

    constructor ()
      ensures Valid() && regions == map[]
    {
      regions := map[];
    }

    /** Maps `size` bytes read+write (mmap with PROT_READ|PROT_WRITE,
        MAP_PRIVATE|MAP_ANONYMOUS; VirtualAlloc with MEM_RESERVE|MEM_COMMIT and
        PAGE_READWRITE). On success the base is a new, non-zero address; on
        failure nothing is mapped and an error number is returned. */
    method Map(size: nat) returns (base: nat, errno: Option<int>)
      requires Valid()
      modifies this
      ensures Valid()
      ensures errno.None? ==> base != 0 && base !in old(regions) && regions == old(regions)[base := Region(size, 0)]
      ensures errno.Some? ==> base == 0 && regions == old(regions)
    {
      var fails: bool := *;
      if fails {
        var code: int := *;
        base, errno := 0, Some(code);
      } else {
        ghost var bound := Above(regions.Keys);
        assert bound != 0 && bound !in regions;
        base :| base != 0 && base !in regions;
        errno := None;
        regions := regions[base := Region(size, 0)];
      }
    }

    /** Makes the `len` bytes at `base` read+execute and no longer writeable
        (mprotect with PROT_READ|PROT_EXEC; VirtualProtect with
        PAGE_EXECUTE_READ). It may fail; a failed call changes nothing, and a
        call on an address that is not a mapping changes nothing either. */
    method Protect(base: nat, len: nat) returns (errno: Option<int>)
      requires Valid()
      modifies this
      ensures Valid()
      ensures errno.None? && base in old(regions) ==> regions == old(regions)[base := old(regions)[base].(executable := len)]
      ensures errno.Some? || base !in old(regions) ==> regions == old(regions)
    {
      var fails: bool := *;
      if fails {
        var code: int := *;
        errno := Some(code);
      } else {
        errno := None;
        if base in regions {
          regions := regions[base := regions[base].(executable := len)];
        }
      }
    }

    /** Unmaps a whole mapping (munmap over its full length). The backend is
        called at most once per mapping and over its whole extent; it may
        still fail, and then the mapping stays. */
    method Unmap(base: nat, len: nat) returns (errno: Option<int>)
      requires Valid()
      requires base in regions && regions[base].size == len
      modifies this
      ensures Valid()
      ensures errno.None? ==> regions == old(regions) - {base}
      ensures errno.Some? ==> regions == old(regions)
    {
      var fails: bool := *;
      if fails {
        var code: int := *;
        errno := Some(code);
      } else {
        errno := None;
        regions := regions - {base};
      }
    }

    /** Releases a whole reservation (VirtualFree with size 0 and
        MEM_RELEASE). Called at most once per mapping; it may fail, and then
        the mapping stays. */
    method Release(base: nat) returns (errno: Option<int>)
      requires Valid()
      requires base in regions
      modifies this
      ensures Valid()
      ensures errno.None? ==> regions == old(regions) - {base}
      ensures errno.Some? ==> regions == old(regions)
    {
      var fails: bool := *;
      if fails {
        var code: int := *;
        errno := Some(code);
      } else {
        errno := None;
        regions := regions - {base};
      }
    }
  }
}
