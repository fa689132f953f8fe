/** The platform-independent part of the W^X memory block: its fields, the
    introspection calls, the append-only Write, the chunked export WriteTo,
    the checks Func makes before it hands out a callable, and the lifecycle
    every operation keeps. Exec, Close and Alloc differ by platform and live in
    the modules WxUnix and WxWindows. */
module Wx {
  import opened Go
  import Backend

  /** The errors the package returns (as opposed to the panics below). */
  datatype Error =
    | CapacityExceeded  // a Write did not fit
    | InvalidClose      // Close on a nil or already closed block
    | Os(errno: int)    // an operating-system call failed; returned as is
    | Sink(code: int)   // the io.Writer given to WriteTo failed; returned as is

  /** Why a call panics. */
  datatype Panic =
    | InvalidBlockUse        // "use of invalid block"
    | WriteToExecutable      // "attempted to write to executable memory"
    | FuncWithoutMemory      // "attempted to create function without committed memory"
    | FuncInWriteable        // "attempted to create function in writeable memory"
    | FuncOutOfBounds        // "function pointer out of bounds"
    | IndexOutOfRange        // the Go runtime's panic for `&p[0]` on an empty slice
    | NegativeAlloc(n: int)  // "cannot allocate n bytes: negative values are illegal"
    | AllocFailed(err: Error) // MustAlloc re-panics with the allocation error

  /** What a successful Func hands out: a callable entered at this address. */
  datatype Callable = Callable(entry: nat)

  /** The `(*Block, error)` pair Alloc returns: one of the two is nil. */
  datatype Allocation = Allocated(block: Block) | NotAllocated(err: Error)

  /** The fixed chunk size WriteTo copies through (not the OS page size). */
  const ChunkSize: nat := 4096

  /** The observable state of a block at one moment. */
  datatype Snapshot = Snapshot(v: nat, n: nat, c: nat, x: bool, written: seq<byte>)

  /** The block invariant: the written prefix is `n` bytes long and fits. */
  ghost predicate Inv(s: Snapshot)
  {
    |s.written| == s.n <= s.c
  }

  /** A step other than a successful Close: the address and capacity stay,
      `x` never goes back to false, and the written prefix only grows, and
      only while the block is valid and writeable. */
  ghost predicate KeepsOpen(s: Snapshot, t: Snapshot)
  {
    && t.v == s.v
    && t.c == s.c
    && (s.x ==> t.x)
    && s.written <= t.written
    && (t.written != s.written ==> s.v != 0 && !s.x)
  }

  /** A successful Close: a valid block loses its address and nothing else. */
  ghost predicate Closes(s: Snapshot, t: Snapshot)
  {
    s.v != 0 && t == s.(v := 0)
  }

  /** What any single operation may do to a block. */
  ghost predicate Step(s: Snapshot, t: Snapshot)
  {
    Inv(t) && (KeepsOpen(s, t) || Closes(s, t))
  }

  /** Over any sequence of operations: `x` stays true once set, the capacity
      never changes, the written prefix only grows and is frozen once the
      block is executable, a closed block stays closed, and a block goes from
      valid to invalid only through a Close. */
  lemma {:induction false} Lifecycle(tr: seq<Snapshot>, i: nat, j: nat)
    requires forall k :: 0 <= k < |tr| - 1 ==> Step(tr[k], tr[k + 1])
    requires i <= j < |tr|
    ensures i < j ==> Inv(tr[j])
    ensures tr[i].x ==> tr[j].x
    ensures tr[j].c == tr[i].c
    ensures tr[i].written <= tr[j].written
    ensures tr[i].x ==> tr[j].written == tr[i].written
    ensures tr[j].v == tr[i].v || tr[j].v == 0
    ensures tr[i].v != 0 && tr[j].v == 0 ==> exists k :: i <= k < j && Closes(tr[k], tr[k + 1])
  {
    if i < j {
      Lifecycle(tr, i, j - 1);
      assert Step(tr[j - 1], tr[j]);
      if tr[i].v != 0 && tr[j].v == 0 && tr[j - 1].v != 0 {
        assert Closes(tr[j - 1], tr[j]);
      }
    }
  }

  /** `b.IsValid()`: the pointer is non-nil and the block holds memory. */
  predicate IsValid(b: Block?)
    reads b
  {
    b != null && b.v != 0
  }

  /** One call to an io.Writer's Write: the slice it was given, the count it
      reported and the error it returned. */
  datatype Call = Call(data: seq<byte>, count: nat, err: Option<Error>)

  /** io.Writer's contract: the count is at most the slice's length, and a
      short count comes with a non-nil error. */
  predicate Honest(call: Call)
  {
    call.count <= |call.data| && (call.count < |call.data| ==> call.err.Some?)
  }

  /** The slices passed, in order. */
  function Offered(calls: seq<Call>): (r: seq<seq<byte>>)
    ensures |r| == |calls|
  {
    if calls == [] then [] else [calls[0].data] + Offered(calls[1..])
  }

  /** The sum of the reported counts. */
  function Counted(calls: seq<Call>): int
  {
    if calls == [] then 0 else calls[0].count + Counted(calls[1..])
  }

  /** The bytes the writer reports having taken, in order. */
  function Accepted(calls: seq<Call>): seq<byte>
    requires forall i :: 0 <= i < |calls| ==> Honest(calls[i])
  {
    if calls == [] then []
    else
      assert Honest(calls[0]);
      calls[0].data[..calls[0].count] + Accepted(calls[1..])
  }

  /** The concatenation of a sequence of byte slices. */
  function Flatten(chunks: seq<seq<byte>>): seq<byte>
  {
    if chunks == [] then [] else chunks[0] + Flatten(chunks[1..])
  }

  /** The slices WriteTo hands to the writer for the written bytes `s`: full
      chunks of ChunkSize bytes followed by one last chunk of the rest. */
  function Chunks(s: seq<byte>): (r: seq<seq<byte>>)
    ensures |r| > 0
    decreases |s|
  {
    if |s| <= ChunkSize then [s] else [s[..ChunkSize]] + Chunks(s[ChunkSize..])
  }

  /** The chunks of `s`, put back together, are `s`; every chunk but the last
      is ChunkSize bytes, and for non-empty `s` the last holds 1 to
      ChunkSize bytes. */
  lemma {:induction false} ChunkShapes(s: seq<byte>)
    ensures Flatten(Chunks(s)) == s
    ensures forall i :: 0 <= i < |Chunks(s)| - 1 ==> |Chunks(s)[i]| == ChunkSize
    ensures |s| > 0 ==> 0 < |Chunks(s)[|Chunks(s)| - 1]| <= ChunkSize
    decreases |s|
  {
    if |s| > ChunkSize {
      var rest := Chunks(s[ChunkSize..]);
      ChunkShapes(s[ChunkSize..]);
      assert Chunks(s)[1..] == rest;
      assert s == s[..ChunkSize] + s[ChunkSize..];
    }
  }

  /** What WriteTo promises about the calls it made for the written bytes `s`
      and the count and error it returned: the slices are the chunks of `s`
      in order, it stopped at the first error and only there (or after the
      last chunk), it returns that error, and the count is the sum of the
      counts the writer reported. */
  ghost predicate Delivered(s: seq<byte>, calls: seq<Call>, total: int, err: Option<Error>)
  {
    && 0 < |calls|
    && Offered(calls) <= Chunks(s)
    && (forall i :: 0 <= i < |calls| - 1 ==> calls[i].err.None?)
    && (|calls| < |Chunks(s)| ==> calls[|calls| - 1].err.Some?)
    && err == calls[|calls| - 1].err
    && total == Counted(calls)
  }

  /** When no writer error came back, an honest writer has taken exactly the
      written bytes, and the count WriteTo returns is their number. */
  lemma {:induction false} DeliveredWhole(s: seq<byte>, calls: seq<Call>, total: int)
    requires forall i :: 0 <= i < |calls| ==> Honest(calls[i])
    requires Delivered(s, calls, total, None)
    ensures Offered(calls) == Chunks(s)
    ensures Accepted(calls) == s
    ensures total == |s|
  {
    var cs := Chunks(s);
    assert forall i :: 0 <= i < |calls| ==> calls[i].err.None?;
    AllTaken(calls, cs);
    ChunkShapes(s);
  }

  /** Honest calls without errors take all they are offered. */
  lemma {:induction false} AllTaken(calls: seq<Call>, cs: seq<seq<byte>>)
    requires forall i :: 0 <= i < |calls| ==> Honest(calls[i]) && calls[i].err.None?
    requires Offered(calls) == cs
    ensures Accepted(calls) == Flatten(cs)
    ensures Counted(calls) == |Flatten(cs)|
  {
    if calls != [] {
      assert Offered(calls[1..]) == cs[1..];
      AllTaken(calls[1..], cs[1..]);
    }
  }

  /** The model of an io.Writer: every call is recorded. Which count and
      error it reports is up to the writer; it only keeps io.Writer's
      contract. */
  class Writer {
    var log: seq<Call>

    ghost predicate Valid()
      reads this
    {
      forall i :: 0 <= i < |log| ==> Honest(log[i])
    }

    constructor ()
      ensures Valid() && log == []
    {
      log := [];
    }

    method Write(p: seq<byte>) returns (count: nat, err: Option<Error>)
      requires Valid()
      modifies this
      ensures Valid()
      ensures count <= |p| && (count < |p| ==> err.Some?)
      ensures log == old(log) + [Call(p, count, err)]
    {
      count :| count <= |p|;
      var fails: bool := *;
      if fails || count < |p| {
        var code: int := *;
        err := Some(Sink(code));
      } else {
        err := None;
      }
      log := log + [Call(p, count, err)];
    }
  }

  /** A W^X block. `v` is the base address (0 when the block holds no
      memory), `n` the number of bytes written, `c` the capacity, `x` the
      executable flag, and `mem` the `c` bytes of the mapping. */
  class Block {
    var v: nat
    var n: nat
    var c: nat
    var x: bool
    var mem: array<byte>

    ghost predicate Valid()
      reads this
    {
      n <= c && mem.Length == c
    }

    /** The block agrees with the operating system: a valid block's address
        is a mapping of exactly `c` bytes, all read+execute once `x` is set. */
    ghost predicate Tracks(os: Backend.Os)
      reads this, os
    {
      v != 0 ==>
        && v in os.regions
        && os.regions[v].size == c
        && (x ==> os.regions[v].executable == c)
    }

    /** The written prefix. */
    ghost function Written(): seq<byte>
      reads this, mem
      requires Valid()
    {
      mem[..n]
    }

    ghost function Snap(): (s: Snapshot)
      reads this, mem
      requires Valid()
      ensures Inv(s)
    {
      Snapshot(v, n, c, x, mem[..n])
    }

    /** `&Block{v: base, c: capacity}` over a fresh, zero-filled mapping. */
    constructor (base: nat, capacity: nat)
      ensures Valid() && fresh(mem)
      ensures v == base && n == 0 && c == capacity && !x
      ensures mem[..] == seq(capacity, _ => 0)
    {
      v, n, c, x := base, 0, capacity, false;
      mem := new byte[capacity](_ => 0);
    }

    /** The number of unwritten bytes; panics on an invalid block. */
    function Available(): (r: Outcome<nat, Panic>)
      reads this
      requires Valid()
      ensures r.Returned? <==> v != 0
      ensures r.Returned? ==> r.value + n == c
      ensures r.Panicked? ==> r.reason == InvalidBlockUse
    {
      if v == 0 then Panicked(InvalidBlockUse) else Returned(c - n)
    }

    /** The number of bytes written; panics on an invalid block. */
    function Len(): (r: Outcome<nat, Panic>)
      reads this
      ensures r.Returned? <==> v != 0
      ensures r.Returned? ==> r.value == n
      ensures r.Panicked? ==> r.reason == InvalidBlockUse
    {
      if v == 0 then Panicked(InvalidBlockUse) else Returned(n)
    }

    /** The offset the next Write starts at; panics on an invalid block. */
    function Cursor(): (r: Outcome<nat, Panic>)
      reads this
      ensures r.Returned? <==> v != 0
      ensures r.Returned? ==> r.value == n
      ensures r.Panicked? ==> r.reason == InvalidBlockUse
    {
      if v == 0 then Panicked(InvalidBlockUse) else Returned(n)
    }

    /** Appends the leading bytes of `p` that fit. Panics on an executable
        block (even for an empty `p`); an empty `p` on a writeable block is a
        no-op that is not checked for validity; otherwise it panics on an
        invalid block. When `p` does not fit, the bytes that do are written
        and CapacityExceeded is returned with their number. */
    method Write(p: seq<byte>) returns (r: Outcome<(int, Option<Error>), Panic>)
      requires Valid()
      modifies this`n, mem
      ensures Valid() && Step(old(Snap()), Snap())
      ensures old(x) ==> r == Panicked(WriteToExecutable) && n == old(n) && mem[..] == old(mem[..])
      ensures !old(x) && |p| == 0 ==> r == Returned((0, None)) && n == old(n) && mem[..] == old(mem[..])
      ensures !old(x) && |p| > 0 && v == 0 ==> r == Panicked(InvalidBlockUse) && n == old(n) && mem[..] == old(mem[..])
      ensures !old(x) && |p| > 0 && v != 0 && |p| <= c - old(n) ==>
        && r == Returned((|p|, None))
        && Written() == old(Written()) + p
        && mem[n..] == old(mem[..])[n..]
      ensures !old(x) && |p| > 0 && v != 0 && |p| > c - old(n) ==>
        && r == Returned((c - old(n), Some(CapacityExceeded)))
        && Written() == old(Written()) + p[..c - old(n)]
        && n == c
    {
      if x {
        return Panicked(WriteToExecutable);
      }
      if |p| == 0 {
        return Returned((0, None));
      }
      var k := |p|;
      var err: Option<Error> := None;
      var avail := Available();
      if avail.Panicked? {
        return Panicked(avail.reason);
      }
      if k > avail.value {
        err := Some(CapacityExceeded);
        k := avail.value;
      }
      forall i | 0 <= i < k {
        mem[n + i] := p[i];
      }
      assert mem[..n + k] == old(mem[..n]) + p[..k];
      assert mem[n + k..] == old(mem[n + k..]);
      n := n + k;
      r := Returned((k, err));
    }

    /** Copies the written bytes out to `w`, through chunks of ChunkSize
        bytes, stopping at the first error the writer returns. Panics on an
        invalid block, and (as written) on an empty one. The block itself is
        not modified. */
    method WriteTo(w: Writer) returns (r: Outcome<(int, Option<Error>), Panic>)
      requires Valid() && w.Valid()
      modifies w
      ensures w.Valid() && old(w.log) <= w.log
      ensures v == 0 ==> r == Panicked(InvalidBlockUse) && w.log == old(w.log)
      ensures v != 0 && n == 0 ==> r == Panicked(IndexOutOfRange) && w.log == old(w.log)
      ensures v != 0 && n > 0 ==>
        && r.Returned?
        && Delivered(Written(), w.log[|old(w.log)|..], r.value.0, r.value.1)
    {
      var len := Len();
      if len.Panicked? {
        return Panicked(len.reason);
      }
      var bn := len.value;
      ghost var s := Written();
      if bn <= ChunkSize {
        if bn == 0 {
          return Panicked(IndexOutOfRange);
        }
        var p := new byte[bn];
        Memmove(p, mem, 0, bn);
        assert p[..] == p[..bn] == s;
        var wn, err := w.Write(p[..]);
        assert w.log[|old(w.log)|..] == [Call(s, wn, err)];
        return Returned((wn, err));
      }
      r := WriteChunks(w);
    }

    /** The loop of WriteTo for more than ChunkSize written bytes: one
        ChunkSize buffer is reused for every full chunk, then for the rest. */
    method WriteChunks(w: Writer) returns (r: Outcome<(int, Option<Error>), Panic>)
      requires Valid() && w.Valid() && n > ChunkSize
      modifies w
      ensures w.Valid() && old(w.log) <= w.log
      ensures r.Returned? && Delivered(Written(), w.log[|old(w.log)|..], r.value.0, r.value.1)
    {
      var bn := n;
      ghost var s := Written();
      var p := new byte[ChunkSize];
      var o := 0;
      var total := 0;
      ghost var calls: seq<Call> := [];
      while bn - o > ChunkSize
        invariant 0 <= o < bn
        invariant w.Valid() && w.log == old(w.log) + calls
        invariant Offered(calls) + Chunks(s[o..]) == Chunks(s)
        invariant forall i :: 0 <= i < |calls| ==> calls[i].err.None?
        invariant total == Counted(calls)
      {
        var wn, err := Pass(w, p, o, ChunkSize);
        var call := Call(s[o..o + ChunkSize], wn, err);
        NextChunk(s, o, calls, call);
        CountedSnoc(calls, call);
        o := o + ChunkSize;
        calls := calls + [call];
        total := total + wn;
        if err.Some? {
          assert w.log[|old(w.log)|..] == calls;
          DeliveredOf(s, calls, Chunks(s[o..]), total, err);
          return Returned((total, err));
        }
      }
      var wn, err := Pass(w, p, o, bn - o);
      assert s[o..o + (bn - o)] == s[o..];
      var call := Call(s[o..], wn, err);
      LastChunk(s, o, calls, call);
      CountedSnoc(calls, call);
      calls := calls + [call];
      total := total + wn;
      assert w.log[|old(w.log)|..] == calls;
      DeliveredOf(s, calls, [], total, err);
      r := Returned((total, err));
    }

    /** One writer call of `WriteTo`: copies `len` written bytes from offset
        `o` into the buffer `p` and hands the writer `p[:len]`. */
    method Pass(w: Writer, p: array<byte>, o: nat, len: nat) returns (wn: nat, err: Option<Error>)
      requires Valid() && w.Valid() && p != mem
      requires len <= p.Length && o + len <= n
      modifies w, p
      ensures w.Valid()
      ensures w.log == old(w.log) + [Call(Written()[o..o + len], wn, err)]
    {
      Memmove(p, mem, o, len);
      assert p[..len] == Written()[o..o + len];
      wn, err := w.Write(p[..len]);
    }

    /** The checks Func makes before it builds a callable at `addr`: the
        block must be valid, executable, and `addr` inside the written bytes.
        The callable enters the block at `v + addr`. */
    function Func(addr: nat): (r: Outcome<Callable, Panic>)
      reads this
      ensures r.Returned? <==> v != 0 && x && addr < n
      ensures r.Returned? ==> r.value.entry == v + addr
      ensures v == 0 ==> r == Panicked(FuncWithoutMemory)
      ensures v != 0 && !x ==> r == Panicked(FuncInWriteable)
      ensures v != 0 && x && addr >= n ==> r == Panicked(FuncOutOfBounds)
    {
      if v == 0 then Panicked(FuncWithoutMemory)
      else if !x then Panicked(FuncInWriteable)
      else if addr >= n then Panicked(FuncOutOfBounds)
      else Returned(Callable(v + addr))
    }
  }

  /** `memmove(&dst[0], src + off, len)`: copies `len` bytes of `src` from
      offset `off` to the start of `dst`. */
  method Memmove(dst: array<byte>, src: array<byte>, off: nat, len: nat)
    requires dst != src
    requires len <= dst.Length && off + len <= src.Length
    modifies dst
    ensures dst[..len] == src[off..off + len]
    ensures dst[len..] == old(dst[len..])
  {
    forall i | 0 <= i < len {
      dst[i] := src[off + i];
    }
  }

  /** Passing the full chunk at offset `o` moves the boundary between the
      chunks handed out and those still to go by one chunk. */
  lemma NextChunk(s: seq<byte>, o: nat, calls: seq<Call>, call: Call)
    requires o + ChunkSize < |s|
    requires Offered(calls) + Chunks(s[o..]) == Chunks(s)
    requires call.data == s[o..o + ChunkSize]
    ensures Offered(calls + [call]) + Chunks(s[o + ChunkSize..]) == Chunks(s)
  {
    var t := s[o..];
    assert t[..ChunkSize] == s[o..o + ChunkSize] && t[ChunkSize..] == s[o + ChunkSize..];
    assert Chunks(t) == [call.data] + Chunks(s[o + ChunkSize..]);
    OfferedSnoc(calls, call);
    assert Offered(calls) + Chunks(t) == (Offered(calls) + [call.data]) + Chunks(s[o + ChunkSize..]);
  }

  /** Passing the rest at offset `o` hands out the last chunk. */
  lemma LastChunk(s: seq<byte>, o: nat, calls: seq<Call>, call: Call)
    requires o < |s| <= o + ChunkSize
    requires Offered(calls) + Chunks(s[o..]) == Chunks(s)
    requires call.data == s[o..]
    ensures Offered(calls + [call]) == Chunks(s)
  {
    OfferedSnoc(calls, call);
  }

  /** The calls made so far, followed by the chunks still to go, are all the
      chunks; so stopping after an error, or after the last chunk, delivers. */
  lemma DeliveredOf(s: seq<byte>, calls: seq<Call>, rest: seq<seq<byte>>, total: int, err: Option<Error>)
    requires Offered(calls) + rest == Chunks(s)
    requires 0 < |calls|
    requires forall i :: 0 <= i < |calls| - 1 ==> calls[i].err.None?
    requires rest != [] ==> calls[|calls| - 1].err.Some?
    requires err == calls[|calls| - 1].err && total == Counted(calls)
    ensures Delivered(s, calls, total, err)
  {
  }

  lemma {:induction false} OfferedSnoc(calls: seq<Call>, last: Call)
    ensures Offered(calls + [last]) == Offered(calls) + [last.data]
  {
    if calls != [] {
      assert (calls + [last])[1..] == calls[1..] + [last];
      OfferedSnoc(calls[1..], last);
    }
  }

  lemma {:induction false} CountedSnoc(calls: seq<Call>, last: Call)
    ensures Counted(calls + [last]) == Counted(calls) + last.count
  {
    if calls != [] {
      assert (calls + [last])[1..] == calls[1..] + [last];
      CountedSnoc(calls[1..], last);
    }
  }

  /** On a valid block the three introspection calls agree: Available and
      Len add up to the capacity and Cursor is Len. On an invalid block all
      three panic. */
  lemma Introspection(b: Block)
    requires b.Valid()
    ensures b.Available().Returned? == b.Len().Returned? == b.Cursor().Returned? == IsValid(b)
    ensures IsValid(b) ==> b.Available().value + b.Len().value == b.c && b.Cursor() == b.Len()
  {
  }

  /** Filling an empty writeable block and then exporting it: with no error
      from the writer, the writer has received exactly the bytes written, and
      WriteTo counts all of them. */
  method FillAndExport(b: Block, a: seq<byte>, w: Writer) returns (r: Outcome<(int, Option<Error>), Panic>)
    requires b.Valid() && w.Valid()
    requires b.v != 0 && !b.x && b.n == 0 && 0 < |a| <= b.c
    modifies b`n, b.mem, w
    ensures r.Returned? && w.Valid() && old(w.log) <= w.log
    ensures r.value.1.None? ==> Accepted(w.log[|old(w.log)|..]) == a && r.value.0 == |a|
  {
    var filled := b.Write(a);
    assert b.Written() == a;
    r := b.WriteTo(w);
    if r.value.1.None? {
      var calls := w.log[|old(w.log)|..];
      assert forall i :: 0 <= i < |calls| ==> Honest(calls[i]) by {
        assert forall i :: 0 <= i < |calls| ==> calls[i] == w.log[|old(w.log)| + i];
      }
      DeliveredWhole(a, calls, r.value.0);
    }
  }
}
