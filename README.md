# diskbenchi: a Dafny model of the huge-page pool and the timed write loop

diskbenchi measures sequential write throughput with direct I/O. It opens the
target with `O_DIRECT` and seeks to `--offset`. It maps a 10 MiB huge-page
pool (`HugePool::new`). Then, `--count` times, it fills the first `--bs` bytes
of the pool with random bytes and times one `write_all` of them. At the end
it reports two durations: the time spent inside writes (`total_time1`) and
the time of the whole loop (`total_time2.elapsed()`).

The model has two modules.

- `Pool` (`pool.dfy`) covers `HugePool` and its constructor, its views and its
  `Drop`. `usize` is a 64-bit natural (`Usize`), and its additions wrap modulo
  2^64. `mmap` is not modelled: its answer is an input, the raw pointer value,
  with `MAP_FAILED` being `(void *) -1`. `MmapContract` states what `mmap`
  promises: either it fails, or it maps a nonzero length inside the address
  space. Under that promise, `NewReturnsAlignedPool` proves four things. The
  aligned base is the least page boundary at or above the mapped address. It
  is less than one page past that address. The mapping is the requested
  length plus one page. The requested bytes at the aligned base lie inside
  the mapping. `OwnedPool` is the live pool value, holding the bytes of its
  mapping and a ghost `released` flag. Its `Drop` needs `!released`, so it
  can run only once.
- `Driver` (`driver.dfy`) covers `main` from the seek onwards. Five things
  are inputs, gathered in one `Env` value: the outcomes of the seek, of
  `mmap` (the pointer it returns) and of each device write, the readings of
  the monotonic clock, and the random bytes of each fill. `DirectFile` holds
  the file position and the list of completed `write_all` calls, empty ones
  included. `RunBenchmark` follows `main` step by step: seek, build the pool,
  refuse a `--bs` larger than the pool (see Left out), run the loop, drop
  the pool. `TimedWrites` is the loop itself. Write `i` puts the bytes of
  fill `i` at file position `offset + i*bs`. The time accumulated inside
  writes never exceeds the elapsed time of the loop. The first failing write
  ends the run, and nothing is written after it.

Facts about the code that the model keeps:

- The code opens and seeks the target before it builds the pool
  (src/main.rs:103-112).
- The views are not bounds-checked (src/main.rs:48-54). See Findings.
- The pool's stored `len` is the padded mapping length. The usable length
  is never shrunk.
- Only the huge-page pool exists: `new` always asks `mmap` for huge pages
  (src/main.rs:66-73).

## Model

| member | source | states |
|---|---|---|
| `Pool.WrappingAdd` | src/main.rs:64 | `usize` addition as a release build performs it: the exact sum when it fits in 64 bits, otherwise the sum less 2^64 |
| `Pool.RoundUpToPage` | src/main.rs:89 | the round-up formula always yields a page multiple, the greatest one not above `ptr + 4095` computed in `usize` arithmetic |
| `Pool.MmapLength` | src/main.rs:61-64 | `new` calls `mmap` exactly when the length is page-aligned; without wrap-around the length it asks for is the request plus 4096 |
| `Pool.New` | src/main.rs:60-94 | a pool is returned exactly when the length is page-aligned and `mmap` did not return `MAP_FAILED`; it records the mapped address and the padded length given to `mmap`; in both success branches the aligned base equals the round-up formula |
| `Pool.NewRejectsBeforeMapping` | src/main.rs:61-63 | an unaligned length returns `None` before `mmap` is called: no length is requested and the answer of `mmap` cannot affect the result |
| `Pool.RoundUpFixesAligned` | src/main.rs:78-84 | an address that is already a page multiple is left unchanged by the round-up, so the "Good!" branch's `aligned == ptr` matches the formula |
| `Pool.RoundUpIsLeastPageMultiple` | src/main.rs:89 | without wrap-around, `4096 * ((ptr + 4095) / 4096)` is page-aligned, lies in `[ptr, ptr + 4096)`, and is at most every page multiple that is at least `ptr` |
| `Pool.PaddingWrapsOnlyToZero` | src/main.rs:64 | for a page-aligned `usize` length, adding the padding page either does not overflow or wraps to exactly 0, a length `mmap` rejects |
| `Pool.NewReturnsAlignedPool` | src/main.rs:60-94 | when `mmap` keeps its contract, every pool `new` returns is well formed; it maps the request plus one page; its aligned base is the least page boundary at or above the mapped address, and it equals that address when the address is aligned; the requested range `[aligned, aligned + len)` lies inside `[pool, pool + len + 4096)` |
| `Pool.DropReleasesWholeMapping` | src/main.rs:41-45 | `drop` unmaps exactly what `mmap` mapped: the region `drop` passes to `munmap` (the stored `pool` and `len`) is the address `mmap` returned and the padded length `new` gave it, and it contains the aligned requested range |
| `Pool.ToSlice` | src/main.rs:48-50 | `to_slice(n)` lends `n` bytes, shared, starting at the page-aligned base, inside the requested range and the mapping, for `n` up to the requested length |
| `Pool.ToMutSlice` | src/main.rs:52-54 | `to_mut_slice(n)` covers the same bytes as `to_slice(n)`, lent exclusively, inside the mapping |
| `Pool.AsMutRef` | src/main.rs:56-58 | `as_mutref` returns a page-aligned pointer less than a page past the mapping start, from which the requested length fits in the mapping |
| `Pool.OwnedPool.constructor` | src/main.rs:80-91 | taking ownership of a pool that `new` built: not yet released, with fresh memory covering the whole mapping |
| `Pool.OwnedPool.SliceBytes` | src/main.rs:48-50 | the bytes that `to_slice(n)` lends are `n` bytes read from the aligned base, and they are exactly the bytes of the region `to_slice(n)` describes |
| `Pool.OwnedPool.Fill` | src/main.rs:117 | the random fill of `to_mut_slice(k)` leaves exactly the given bytes in the first `k` bytes at the aligned base and changes no other byte of the mapping |
| `Pool.OwnedPool.Drop` | src/main.rs:41-45 | `drop` can run only on a pool not yet released; it marks the pool released and passes the stored mapping start and length to `munmap` |
| `Driver.DirectFile.constructor` | src/main.rs:103-108 | a freshly opened target is at position 0 and has received no writes |
| `Driver.DirectFile.Seek` | src/main.rs:110 | a successful seek sets the position to the offset; a failed seek leaves the position as it was; no data is written |
| `Driver.DirectFile.WriteAll` | src/main.rs:120 | `write_all` of an empty buffer always succeeds; otherwise it succeeds exactly when the device accepts; on success the whole buffer is recorded at the old position and the position advances by its length; on failure nothing changes |
| `Driver.WriteSucceeds` | src/main.rs:120 | `write_all` of an empty buffer succeeds whatever the device does; of a nonempty one, exactly when the device accepts it |
| `Driver.Elapsed` | src/main.rs:119-121 | `now.elapsed()` is the time between two clock readings, saturating at zero if the clock went back |
| `Driver.WriteTime` | src/main.rs:114-121 | the sum that `total_time1` accumulates starts at zero and, on a monotonic clock, over the first `k` writes is at most the time from the reading before the loop to the reading after write `k` |
| `Driver.ExpectedWrites` | src/main.rs:116-122 | the writes of `k` successful iterations number exactly `k` |
| `Driver.ExpectedWriteAt` | src/main.rs:116-122 | iteration `i` writes the bytes it filled in at position `offset + i * bs` |
| `Driver.ExpectedWritesCarryFills` | src/main.rs:116-122 | after `k` iterations the bytes the file received are the random bytes of the first `k` fills, in order |
| `Driver.FlattenLength` | src/main.rs:117-120 | `k` fills of `bs` bytes each come to `k * bs` bytes written |
| `Driver.ExpectedWritesSequential` | src/main.rs:110-122 | the writes are contiguous: the first starts at `offset`, each later one starts where the previous one ended, and the last ends at `offset + k * bs` |
| `Driver.MainBlockView` | src/main.rs:117-120 | the view `main` builds, as written, is exactly `to_mut_slice(bs)` whenever `bs` fits in the pool; it exists for every other `bs` too, with no check |
| `Driver.OversizedBlockLeavesMapping` | src/main.rs:112-120 | as written, every `--bs` more than one page beyond the 10 MiB pool makes `main` lend a view that runs past the end of the mapping, whatever address `mmap` returned |
| `Driver.StartOffset` | src/main.rs:99 | `opt.offset.unwrap_or(0)`: the given offset, or 0 when `--offset` is absent |
| `Driver.CheckedBlockView` | src/main.rs:112-120 | corrected: a view exists exactly when `bs` fits in the requested length; it is then `to_mut_slice(bs)` and lies inside the mapping |
| `Driver.TimedWrites` | src/main.rs:114-122 | the loop completes exactly when every write succeeds; the file then gains the expected writes, the position is `offset + count * bs` and `total_time1` is the write-time sum; otherwise it stops at the first failing iteration, and the file holds only that iteration's predecessors; afterwards the pool's first `bs` bytes at the aligned base are the last fill (the failing iteration's, when one fails), and no other byte of the mapping changed |
| `Driver.RunBenchmark` | src/main.rs:97-126 | several cases. A failed seek, a failed `mmap` or an oversized block aborts with nothing written. The pool is unmapped exactly once, and whole, exactly when it was built. A finished run wrote `count` contiguous blocks of random bytes from the start offset (`--offset`, default 0) and reports a write time that is at most the elapsed time. Once the seek, the pool and the block size pass, the only early stop is a write failure, which reports the failing iteration and nothing written after it |

## Left out

- Command-line parsing (`Opt`, `from_args`) and the `println!`/`dbg!` output: `RunBenchmark` takes the resolved options and returns the two durations.
- Opening the target with `O_DIRECT` and `create(true)`, and the "Can't open" panic: the model starts from an opened `DirectFile`.
- What `mmap`, `munmap`, `seek` and the device actually do, including huge-page availability and direct-I/O alignment rules. They are inputs: the pointer `mmap` returns, and one success flag for the seek and one per write. The result of `munmap` is ignored, as in the source.
- Partial writes: `write_all` can write part of a buffer before it fails. The model's failed write leaves the file unchanged. The run aborts in either case.
- `thread_rng().fill`: the random bytes are an input, one chunk of `bs` bytes per iteration.
- `Instant` and `Duration`: clock readings are natural numbers of nanoseconds. `elapsed` saturates at zero, as Rust's does. The bound on `total_time1` assumes the clock never decreases. The overflow panic of `Duration`'s `+=` is not modelled.
- Overflow in `usize` arithmetic: additions wrap, as in a release build. A debug build panics on the same inputs. The two `new` overflows that matter are `len + 4096` and `ptr + 4095`. On any path where `mmap` succeeds neither can happen (`PaddingWrapsOnlyToZero`, `NewReturnsAlignedPool`).
- Unwinding: the model assumes the default `panic = unwind`, so the pool is still dropped when `expect` panics on a failed write. With `panic = abort` no drop would run.
- `unsafe impl Sync`/`Send` for `HugePool`: the program has one thread.
- `Driver.RunBenchmark`: it models the corrected driver, which refuses a `--bs` larger than the 10 MiB request before the loop. The source does not check this (see Findings). The refusal is stricter than the source in two places, where the source stays in bounds: it also refuses such a `--bs` with `--count 0`, where the source never builds a view; and it refuses a `--bs` just above 10 MiB whose view still ends inside the padding page (up to 10 MiB + 4096 on a page-aligned mapping).

## Findings

| source | as written | input that shows it | evidently intended | confidence | as-written member | corrected member |
|---|---|---|---|---|---|---|
| src/main.rs:112-120 | `main` passes `opt.bs` to `to_mut_slice` and `to_slice` on a 10 MiB pool. It never compares `opt.bs` with the pool size, and the views do not check their length either. | `--bs 20971520 --count 1`: the raw slice covers 20 MiB from the aligned base, past the end of the 10 MiB + 4096 byte mapping, which is undefined behaviour | refuse a block size larger than the pool before the loop starts | medium; not executed | `Driver.OversizedBlockLeavesMapping` | `Driver.CheckedBlockView` |
