/** The Unix half of the W^X block: Alloc with its one-page minimum, Exec and
    Close over mmap, mprotect and munmap, and MustAlloc as built against this
    Alloc. */
module WxUnix {
  import opened Go
  import opened Wx
  import Backend
  import Pages

  /** The number of bytes Alloc asks mmap for: `n` rounded up to whole pages,
      and one page when that is 0, because a zero-length mapping must never
      be made. */
  function Capacity(n: nat, ps: nat): (c: nat)
    requires ps > 0
    ensures c > 0 && c % ps == 0
    ensures n <= c
    ensures c < n + ps || c == ps
    ensures n <= ps ==> c == ps
  {
    var c := Pages.RoundUp(n, ps);
    if c == 0 then ps
    else if n <= ps then Pages.OnePage(c, ps); c
    else c
  }

  /** No smaller positive multiple of the page size holds `n` bytes. */
  lemma {:induction false} CapacityLeast(n: nat, ps: nat, m: nat)
    requires ps > 0 && 0 < m && m % ps == 0 && n <= m
    ensures Capacity(n, ps) <= m
  {
    var c := Capacity(n, ps);
    if c > m {
      if c == ps {
        Pages.PositiveMultiple(m, ps);
      } else {
        Pages.MultiplesApart(m, c, ps);
      }
    }
  }

  /** Alloc(n): panics for a negative `n`; otherwise maps `Capacity(n, ps)`
      bytes read+write and returns a new, empty, writeable block over them,
      or, when mmap fails, no block and the error. */
  method Alloc(n: int, ps: nat, os: Backend.Os) returns (r: Outcome<Allocation, Panic>)
    requires ps > 0 && os.Valid()
    modifies os
    ensures os.Valid()
    ensures n < 0 ==> r == Panicked(NegativeAlloc(n)) && os.regions == old(os.regions)
    ensures n >= 0 ==> r.Returned?
    ensures r.Returned? && r.value.Allocated? ==>
      var b := r.value.block;
      && fresh(b) && fresh(b.mem) && b.Valid() && b.Tracks(os)
      && b.v != 0 && b.v !in old(os.regions)
      && b.n == 0 && !b.x && b.c == Capacity(n, ps)
      && b.mem[..] == seq(b.c, _ => 0)
      && os.regions == old(os.regions)[b.v := Backend.Region(b.c, 0)]
    ensures r.Returned? && r.value.NotAllocated? ==> r.value.err.Os? && os.regions == old(os.regions)
  {
    if n < 0 {
      return Panicked(NegativeAlloc(n));
    }
    var c := Capacity(n, ps);
    var p, errno := os.Map(c);
    if errno.Some? {
      return Returned(NotAllocated(Os(errno.value)));
    }
    var b := new Block(p, c);
    r := Returned(Allocated(b));
  }

  /** MustAlloc(n): Alloc, with an allocation error turned into a panic. */
  method MustAlloc(n: int, ps: nat, os: Backend.Os) returns (r: Outcome<Block, Panic>)
    requires ps > 0 && os.Valid()
    modifies os
    ensures os.Valid()
    ensures n < 0 ==> r == Panicked(NegativeAlloc(n)) && os.regions == old(os.regions)
    ensures r.Returned? ==>
      var b := r.value;
      && fresh(b) && fresh(b.mem) && b.Valid() && b.Tracks(os)
      && b.v != 0 && b.n == 0 && !b.x && b.c == Capacity(n, ps)
      && os.regions == old(os.regions)[b.v := Backend.Region(b.c, 0)]
    ensures n >= 0 && r.Panicked? ==> r.reason.AllocFailed? && r.reason.err.Os? && os.regions == old(os.regions)
  {
    var a := Alloc(n, ps, os);
    if a.Panicked? {
      return Panicked(a.reason);
    }
    match a.value
    case NotAllocated(err) => r := Panicked(AllocFailed(err));
    case Allocated(b) => r := Returned(b);
  }

  /** Exec: asks mprotect to make the whole capacity read+execute, and sets
      `x` only when that succeeds. There is no guard on `x`: on an executable
      block the same call is made again. `v`, `n` and `c` never change. */
  method Exec(b: Block, os: Backend.Os) returns (err: Option<Error>)
    requires b.Valid() && os.Valid() && b.Tracks(os)
    modifies b`x, os
    ensures b.Valid() && os.Valid() && b.Tracks(os)
    ensures Step(old(b.Snap()), b.Snap())
    ensures b.v == old(b.v) && b.n == old(b.n) && b.c == old(b.c)
    ensures err.None? ==> b.x
    ensures err.None? && b.v != 0 ==> os.regions == old(os.regions)[b.v := Backend.Region(b.c, b.c)]
    ensures err.None? && b.v == 0 ==> os.regions == old(os.regions)
    ensures err.Some? ==> err.value.Os? && b.x == old(b.x) && os.regions == old(os.regions)
  {
    var errno := os.Protect(b.v, b.c);
    if errno.Some? {
      return Some(Os(errno.value));
    }
    b.x := true;
    err := None;
  }

  /** Close: on a nil or closed block, InvalidClose without calling munmap.
      Otherwise munmap over the whole capacity; on success the block loses its
      address, on failure it is left as it was and the error is returned. */
  method Close(b: Block?, os: Backend.Os) returns (err: Option<Error>)
    requires os.Valid()
    requires b != null ==> b.Valid() && b.Tracks(os)
    modifies b, os
    ensures os.Valid()
    ensures b != null ==> b.Valid() && b.Tracks(os) && Step(old(b.Snap()), b.Snap())
    ensures !old(IsValid(b)) ==> err == Some(InvalidClose) && os.regions == old(os.regions) && (b != null ==> unchanged(b))
    ensures old(IsValid(b)) && err.None? ==>
      && b.v == 0 && b.n == old(b.n) && b.c == old(b.c) && b.x == old(b.x) && b.mem == old(b.mem)
      && os.regions == old(os.regions) - {old(b.v)}
    ensures old(IsValid(b)) && err.Some? ==> err.value.Os? && unchanged(b) && os.regions == old(os.regions)
  {
    if !IsValid(b) {
      return Some(InvalidClose);
    }
    var errno := os.Unmap(b.v, b.c);
    if errno.Some? {
      return Some(Os(errno.value));
    }
    b.v := 0;
    err := None;
  }

  /** Closing twice: when the first Close succeeds, the second returns
      InvalidClose and leaves the operating system's mappings alone. */
  method CloseTwice(b: Block, os: Backend.Os) returns (first: Option<Error>, second: Option<Error>)
    requires b.Valid() && os.Valid() && b.Tracks(os) && IsValid(b)
    modifies b, os
    ensures first.None? ==> second == Some(InvalidClose) && !IsValid(b)
    ensures first.None? ==> os.regions == old(os.regions) - {old(b.v)}
  {
    first := Close(b, os);
    second := Close(b, os);
  }
}
