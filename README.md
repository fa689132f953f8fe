# W^X memory blocks and the x86 opcode-table generator, in Dafny

This project models two parts of the Go repository `zephyrtronium/ikitai` and proves properties of them.

**The W^X memory `Block`** (package `internal/unsafewx`). A block is a mapping of `c` bytes at base address `v`. `n` bytes of it have been written, and `x` says whether it has been made executable. It is writeable exactly until it becomes executable, and it holds no memory (`v == 0`) once closed. The model has these classes:

- `Wx.Block`, with the fields `v`, `n`, `c`, `x` and the mapping's bytes as an `array<byte>`.
- `Backend.Os`, which stands for the operating system. It keeps the map of live mappings. Its `Map`, `Protect`, `Unmap` and `Release` calls may fail nondeterministically, and on failure they change nothing.
- `Wx.Writer`, which stands for an `io.Writer`. It records every call it receives, and it may accept fewer bytes or report an error, as the `io.Writer` contract allows.

A Go panic is a `Panicked(reason)` result, with one reason per panic message.

The Unix and Windows versions of `Alloc`, `Exec` and `Close` are the modules `WxUnix` and `WxWindows`. The page size is a parameter `ps > 0`.

Every operation keeps the block invariant, stated once over a `Snapshot` of the block as `Wx.Step`:

- `n <= c`;
- the written prefix only grows, and only while the block is valid and writeable;
- `x` never goes back to false;
- `v` becomes 0 only through a successful `Close`.

`Wx.Lifecycle` lifts these facts to any sequence of operations.

**The opcode-table generator** (`internal/x86enc/mkenc/main.go`). It reads `x86.csv` and writes a Go table of instruction forms together with index ranges, one range per emitted run of rows with the same opcode (an opcode whose rows are not consecutive gets one range per run). The model covers:

- `getop`: field splitting on spaces and commas, and the two data fix-ups;
- `emit`: the filter that drops groups made only of pseudo-instructions, the index pair, and operand collection;
- the main loop, which groups consecutive rows by opcode.

A table line is modelled as the group of rows it renders. `Mkenc.Generator` holds the table lines, the index pairs and the global `argtypes` set. It is specified against whole-input functions:

- `Parse`: the rows;
- `Runs`: the maximal runs of one opcode;
- `Kept`: the runs that are written;
- `Ranges`: their index pairs.

## Notes on the source

These are places where the code differs from its documentation, or from what a reader would expect. The model follows the code.

- `Close` on an invalid block returns `ErrInvalidClose`, on both Unix (`wx_unix.go:59`) and Windows (`wx_windows.go:46`). However, the only error declared for this is `InvalidClose` (`wx.go:167`). The model uses the one value `Wx.Error.InvalidClose`.
- `WriteTo` on a valid block with nothing written takes `&p[0]` of an empty slice (`wx.go:100-103`), so it panics with an index error. `Wx.Block.WriteTo` returns `Panicked(IndexOutOfRange)` in that case.
- `Write` with an empty slice returns `(0, nil)` before it checks validity (`wx.go:81-83`). Its documentation says it panics on an invalid block. It still panics on an executable block, because the `x` check comes first.
- The Windows `Alloc` has no one-page minimum, so `Alloc(0)` asks for a mapping of 0 bytes (`wx_windows.go:15`). The Unix `Alloc` raises 0 to one page (`wx_unix.go:20-25`). `WxUnix.Capacity` and `WxWindows.Capacity` state the difference.
- `WriteTo` copies through chunks of a fixed 4096 bytes, which is not the operating system's page size (`wx.go:98`). This is `Wx.ChunkSize`.
- `Exec` does not check `x` or `v`. On an executable block it repeats the same protection call. On a closed block it passes address 0 to the system call, and the model lets the backend decide the outcome.

## Model

| member | source | states |
|---|---|---|
| Wx.Lifecycle | internal/unsafewx/wx.go:4-7 | over any sequence of steps: the invariant holds, `x` stays set, `c` is constant, the written prefix only grows and is frozen once executable, `v` is kept or 0, and `v` goes from non-zero to 0 only at a successful close |
| Wx.IsValid | internal/unsafewx/wx.go:41-43 | a block is valid when it is non-nil and holds memory (`v != 0`) |
| Wx.Introspection | internal/unsafewx/wx.go:41-71 | on a non-nil block, Available, Len and Cursor succeed exactly when `IsValid` (here: `v != 0`); on a valid block `Available + Len == c` and `Cursor == Len` |
| Wx.Block.Available | internal/unsafewx/wx.go:47-52 | panics with the invalid-use reason exactly when `v == 0`, otherwise returns `c - n` |
| Wx.Block.Len | internal/unsafewx/wx.go:56-61 | panics with the invalid-use reason exactly when `v == 0`, otherwise returns `n` |
| Wx.Block.Cursor | internal/unsafewx/wx.go:66-71 | panics with the invalid-use reason exactly when `v == 0`, otherwise returns `n` |
| Wx.Block.constructor | internal/unsafewx/wx_unix.go:38 | a new block holds a zero-filled mapping of `capacity` bytes at `base`, with nothing written and not executable |
| Wx.Block.Write | internal/unsafewx/wx.go:77-93 | panics on an executable block even for empty input; an empty write returns `(0, nil)` and changes nothing; otherwise panics on an invalid block. When `p` fits, it returns `(len(p), nil)`, the written prefix becomes the old one followed by `p`, and the bytes past it are untouched. When `p` does not fit, it returns `(c - old n, CapacityExceeded)`, stores exactly that many leading bytes of `p`, and leaves `n == c`. Every outcome is a `Step` |
| Wx.Block.WriteTo | internal/unsafewx/wx.go:97-123 | panics on an invalid block and, as written, on an empty one; otherwise the writer calls are the chunks of the written bytes in order, up to and including the first call that returns an error. The total is the sum of the counts reported, and the block is not modified |
| Wx.Block.WriteChunks | internal/unsafewx/wx.go:107-122 | the loop over more than 4096 written bytes delivers one full 4096-byte chunk per call and then the remainder, stopping at the first writer error |
| Wx.Block.Pass | internal/unsafewx/wx.go:111-113 | one writer call: `len` written bytes from offset `o` are copied into the buffer and exactly those bytes are handed to the writer, which records the call |
| Wx.ChunkShapes | internal/unsafewx/wx.go:98-120 | the chunks reassemble the written bytes; every chunk but the last is exactly 4096 bytes, and the last is 1 to 4096 bytes |
| Wx.DeliveredWhole | internal/unsafewx/wx.go:97-123 | when no error comes back from a writer that keeps the `io.Writer` contract, it was offered exactly the chunks, it accepted all the written bytes in order, and the returned count is their number |
| Wx.FillAndExport | internal/unsafewx/wx_test.go:137-164 | filling an empty block with `a` and exporting it gives a writer that reports no error exactly the bytes of `a`, with count `len(a)` |
| Wx.Block.Func | internal/unsafewx/wx.go:133-142 | returns a callable exactly when the block is valid, executable and `addr < n`, entered at `v + addr`; otherwise it panics with the first failing check's reason, in the source's order |
| Wx.Memmove | internal/unsafewx/wx.go:178-182 | copies `len` bytes of the mapping from offset `off` to the start of the destination buffer and leaves the rest of the buffer unchanged |
| Wx.Writer.Write | internal/unsafewx/wx.go:104 | a writer call reports a count of at most `len(p)`, a short count comes with an error, and the call is recorded |
| Backend.Os.Map | internal/unsafewx/wx_unix.go:27 | `unix.Mmap`, and `windows.VirtualAlloc` at wx_windows.go:17: on success a new non-zero base that is not the base of a live mapping (a freed base may be handed out again) is added as a read+write mapping of the requested size; on failure nothing changes and an error number is returned |
| Backend.Os.Protect | internal/unsafewx/wx_unix.go:48 | `unix.Mprotect`, and `windows.VirtualProtect` at wx_windows.go:32: on success the mapping at `base` becomes executable over `len` bytes; on failure, or for an address that is not mapped, nothing changes |
| Backend.Os.Unmap | internal/unsafewx/wx_unix.go:62 | `unix.Munmap` over a whole mapping: on success the mapping is removed, on failure nothing changes |
| Backend.Os.Release | internal/unsafewx/wx_windows.go:49 | `windows.VirtualFree` with `MEM_RELEASE`: on success the mapping is removed, on failure nothing changes |
| Pages.RoundUp | internal/unsafewx/wx_unix.go:19 | `(n + ps - 1) / ps * ps` is a multiple of `ps` with `n <= c < n + ps`, and 0 for `n == 0` |
| WxUnix.Capacity | internal/unsafewx/wx_unix.go:19-25 | the mapped size is a positive multiple of the page size, at least `n`, and less than `n + ps` unless it is the one-page minimum; for `n <= ps` it is exactly one page |
| WxUnix.CapacityLeast | internal/unsafewx/wx_unix.go:19-25 | no smaller positive multiple of the page size holds `n` bytes |
| WxUnix.Alloc | internal/unsafewx/wx_unix.go:14-39 | panics for `n < 0`. Otherwise it either returns a fresh, valid, empty, writeable block of `Capacity(n, ps)` zero bytes at a new address, recorded as a new read+write mapping, or returns no block and the system error with the mappings unchanged |
| WxUnix.MustAlloc | internal/unsafewx/wx.go:32-38 | returns Alloc's block, or panics with the negative-size reason or with the allocation error |
| WxUnix.Exec | internal/unsafewx/wx_unix.go:43-54 | sets `x` only when the protection of the whole capacity succeeds, which marks the mapping executable; on failure `x` and the mappings are unchanged and the error is returned; `v`, `n` and `c` never change |
| WxUnix.Close | internal/unsafewx/wx_unix.go:57-68 | on a nil or closed block returns InvalidClose without calling unmap. Otherwise, on success `v` becomes 0 and the mapping is removed, with nothing else changed. When unmap fails, the block is unchanged and the error is returned |
| WxUnix.CloseTwice | internal/unsafewx/wx_test.go:13-26 | after a successful close the block is invalid, a second close returns InvalidClose, and the mapping is gone |
| WxWindows.Capacity | internal/unsafewx/wx_windows.go:15 | the reserved size is a multiple of the page size with `n <= c < n + ps`, and 0 exactly when `n == 0` |
| WxWindows.CapacityLeast | internal/unsafewx/wx_windows.go:15 | no smaller multiple of the page size holds `n` bytes |
| WxWindows.Alloc | internal/unsafewx/wx_windows.go:10-25 | panics for `n < 0`. Otherwise it either returns a fresh, valid, empty, writeable block of `Capacity(n, ps)` bytes at a new address, or returns no block and the system error with nothing changed |
| WxWindows.MustAlloc | internal/unsafewx/wx.go:32-38 | returns Alloc's block, or panics with the negative-size reason or with the allocation error |
| WxWindows.Exec | internal/unsafewx/wx_windows.go:29-41 | sets `x` only when making the whole capacity execute-read succeeds; otherwise `x` and the mappings are unchanged and the error is returned |
| WxWindows.Close | internal/unsafewx/wx_windows.go:44-55 | on a nil or closed block returns InvalidClose without calling the release routine. Otherwise, on success `v` becomes 0 and the mapping is released. When the release fails, the block is unchanged and the error is returned |
| Mkenc.Split | internal/x86enc/mkenc/main.go:92-94 | every field is non-empty and free of spaces and commas, and together the fields are exactly the input's other characters, in order |
| Mkenc.FieldsOfInterleave | internal/x86enc/mkenc/main.go:92-94 | fields written with any non-empty run of spaces and commas between neighbours, possibly different in each gap, and any spaces and commas before the first and after the last, split back into exactly those fields |
| Mkenc.FieldsShape | internal/x86enc/mkenc/main.go:92-94 | every string is its fields written with non-empty separator runs between them and possibly empty ones around them, so with `FieldsOfInterleave` the fields of every input are determined |
| Mkenc.RemoveDots | internal/x86enc/mkenc/main.go:102 | the result has no `.` and holds only characters of the input |
| Mkenc.RemoveDotsClean | internal/x86enc/mkenc/main.go:102 | an input without `.` is returned unchanged |
| Mkenc.RemoveDotsAppend | internal/x86enc/mkenc/main.go:102 | removing dots from a concatenation is removing them from each part and concatenating, so the characters kept stay in their order |
| Mkenc.RemoveDotsCons | internal/x86enc/mkenc/main.go:102 | a leading character is dropped exactly when it is `.`, and otherwise kept in front of the rest |
| Mkenc.RemoveDotsCounts | internal/x86enc/mkenc/main.go:102 | every character other than `.` occurs in the result as often as in the input, and `.` not at all |
| Mkenc.HasPrefix | internal/x86enc/mkenc/main.go:103 | `strings.HasPrefix`: the first `len(prefix)` characters of `s` are the prefix |
| Mkenc.PrefixWitness | internal/x86enc/mkenc/main.go:103 | `s` has the prefix exactly when it is the prefix followed by some string |
| Mkenc.GetOp | internal/x86enc/mkenc/main.go:91-122 | panics with the input exactly when it has 0 or more than 5 fields; otherwise the opcode is the first field |
| Mkenc.GetOpPlain | internal/x86enc/mkenc/main.go:95-117 | when no fix-up applies, the five parts are the k fields followed by `5 - k` empty operands |
| Mkenc.GetOpFixups | internal/x86enc/mkenc/main.go:95-117 | with 4 or 5 fields, the opcode and the first two operands are the first three fields, and the third operand is the fourth field without dots. A fifth field starting with `/` is appended to it, and the fourth operand is then empty; otherwise the fourth operand is the fifth field, or empty |
| Mkenc.GetOpRoundTrip | internal/x86enc/mkenc/main.go:91-122 | when no fix-up applies, splitting the non-empty parts joined by spaces gives back the input's fields |
| Mkenc.IsPseudo | internal/x86enc/mkenc/main.go:133 | a row is a pseudo-instruction when its last column, the tags, contains `pseudo` |
| Mkenc.Real | internal/x86enc/mkenc/main.go:131-138 | a group is written out when some row in it is not a pseudo-instruction |
| Mkenc.Contains | internal/x86enc/mkenc/main.go:133 | true exactly when `sub` occurs in `s` at some position |
| Mkenc.Generator.Emit | internal/x86enc/mkenc/main.go:124-157 | a group with at least one row whose tags do not contain "pseudo" becomes one table line and the index pair `(n, n + len(l))`, its operands a1..a4 join argtypes, and `n + len(l)` is returned. Any other group, the empty one included, writes nothing and returns `n` |
| Mkenc.MakeRow | internal/x86enc/mkenc/main.go:79 | a row is the five parts of the first column followed by the record's other five columns |
| Mkenc.Parse | internal/x86enc/mkenc/main.go:69-87 | every row of the records has the ten columns of an instruction form |
| Mkenc.PanicSticks | internal/x86enc/mkenc/main.go:73 | once getop panics on a record, the whole run panics with that record's first column |
| Mkenc.RunsFlat | internal/x86enc/mkenc/main.go:73-79 | the runs hold exactly the rows, in input order |
| Mkenc.RunsFlatStep | internal/x86enc/mkenc/main.go:73-79 | one more record's row, whether it extends the last run or starts a new one, is one more row at the end of the flattened runs |
| Mkenc.RunsUniform | internal/x86enc/mkenc/main.go:74-79 | every run is non-empty and all its rows have the run's opcode |
| Mkenc.RunsMaximal | internal/x86enc/mkenc/main.go:74-78 | neighbouring runs have different opcodes, so each run is maximal |
| Mkenc.KeptFilter | internal/x86enc/mkenc/main.go:131-138 | every written group is real, and a group is written exactly when it is one of the runs and real |
| Mkenc.KeptAppend | internal/x86enc/mkenc/main.go:131-138 | filtering a concatenation is filtering each part, and one group is kept exactly when it is real; so the written groups are the real runs in input order, each as often as it occurs |
| Mkenc.RangesContiguous | internal/x86enc/mkenc/main.go:153-154 | the index pairs start at 0, each spans its group's rows, and each starts where the previous one ends |
| Mkenc.EmitStep | internal/x86enc/mkenc/main.go:148-156 | emitting one more run adds it, its index pair and its operands to the output exactly when it is not all pseudo-instructions |
| Mkenc.Generator.Feed | internal/x86enc/mkenc/main.go:69-79 | one record of the loop: a record without six columns is skipped, getop's panic is passed on with the parse of the records so far made `Panicked`, and otherwise the row is added to the rows parsed so far and the loop state is kept |
| Mkenc.Generator.Start | internal/x86enc/mkenc/main.go:74-79 | a row with a new opcode emits the gathered run and starts a new one with the row, keeping the loop's state |
| Mkenc.ExtendStep | internal/x86enc/mkenc/main.go:79 | a row with the current opcode joins the gathered run, keeping the loop's state |
| Mkenc.FinishStep | internal/x86enc/mkenc/main.go:80-82 | the final emit at end of input leaves the output of all runs |
| Mkenc.Generator.Run | internal/x86enc/mkenc/main.go:56-88 | a record without six columns is skipped; if getop rejects a first column, the run panics with it. Otherwise the table lines are exactly the kept runs of the rows in order, the index pairs are their ranges from 0, and argtypes gains exactly their operands |

## Left out

- The system calls `unix.Mmap`, `Mprotect`, `Munmap`, `windows.VirtualAlloc`, `VirtualProtect` and `VirtualFree` are foreign calls. They are the nondeterministic `Backend.Os`. A new mapping's base is any non-zero address that is not the base of a live mapping, so a base freed by `Unmap` or `Release` may be handed out again. The model does not promise that mappings are disjoint, since each block has its own array of bytes. A zero-byte Windows mapping has whatever outcome the backend gives.
- `unix.Getpagesize` and `windows.Getpagesize` are the parameter `ps > 0`.
- `Func`'s synthesis of a typed function value through `reflect` and `unsafe`, and running the machine code, are untyped foreign execution. Only Func's three checks and the entry address are modelled.
- `memmove` is an element-wise array copy between two distinct arrays.
- `Verbose` and `logv` only log, so they are left out.
- Pages.RoundUp: does not model overflow of Go's `int` in `n + ps - 1`, because integers are unbounded here.
- WxUnix.Capacity: does not model that overflow either. Converting the capacity to `uintptr` is also unmodelled.
- WxWindows.Capacity: the same.
- Wx.Block.WriteTo: the count is an unbounded integer rather than an `int64`. `io.Writer` is one recording writer that keeps the `io.Writer` contract. Writers that break it (claiming more bytes than given) are not modelled.
- Wx.Block.Write: the byte count is an unbounded integer rather than an `int`.
- Wx.Block.Available: the receiver is a non-nil block. On a nil `*Block` the source's `IsValid` is false and Available panics with the invalid-use reason; Dafny member functions need a non-null receiver.
- Wx.Block.Len: the same; on nil it panics with the invalid-use reason.
- Wx.Block.Cursor: the same; on nil it panics with the invalid-use reason.
- Wx.Block.Func: the same; on nil it panics with the "without committed memory" reason.
- Wx.Block.WriteTo: the same; on nil it panics through `Len`.
- Wx.Block.Write: the same; on nil it faults when reading `b.x`.
- Wx.Introspection: is stated for non-nil blocks only, for the same reason.
- Exec and Close take a non-nil block for `Exec` (Go would dereference nil and fault) and a block that agrees with the backend's mappings. Close also accepts nil.
- Concurrency does not occur in the code. Thread safety of calling into a block is out of reach.
- Mkenc.Generator.Run: on a panic, the contract gives the reason but not what was written before it. The HTTP fetch, file creation, the CSV reader, and `must`'s panic on a failed write are all I/O. The loop's panic on a CSV read error other than a wrong field count is not modelled. A record is a sequence of columns, and a comment line never reaches the loop.
- Mkenc.Generator.Emit: the `%q` formatting of a table line is library formatting, so a line is the group of rows it renders. The index pairs are unbounded integers. That the generated `int16` literals could overflow is not modelled.
- Printing the sorted `argtypes` to standard error is output only; the set itself is modelled.
- `internal/x86enc/op.go` is not part of this model. Its `enc` is unfinished, and it depends on generated tables.
