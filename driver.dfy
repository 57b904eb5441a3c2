/**
  The benchmark driver, `main`: seek the opened target to the start offset,
  build a 10 MiB pool, then `count` times fill the first `bs` bytes of the
  pool with random bytes and time one `write_all` of them.

  Everything the program learns from its surroundings is an input, collected
  in `Env`: whether the seek succeeds, what `mmap` answers, the readings of the
  monotonic clock, whether the device accepts each write, and the random
  bytes of each fill.
 */
module Driver {
  import opened Pool

  /** The length `main` asks `HugePool::new` for: 10 MiB. */
  const POOL_REQUEST: Usize := 10 * 1024 * 1024

  /** The resolved command line: `--bs`, `--count` and the optional `--offset`. */
  datatype Config = Config(bs: Usize, count: Usize, offset: Option<nat>)

  /**
    What the environment answers, in program order. `clock[0]` is the reading
    taken before the loop; iteration `i` reads `clock[2 * i + 1]` before its
    write and `clock[2 * i + 2]` after it; the reading after the loop is
    `clock[2 * count + 1]`. Iteration `i` fills the pool with the random
    bytes `fills[i]`.
   */
  datatype Env = Env(seekOk: bool, mmapAnswer: Usize, clock: seq<nat>, deviceOk: seq<bool>, fills: seq<seq<byte>>)

  /** A completed `write_all` call: `data` went to file position `pos`. An empty `data` reached no device. */
  datatype Block = Block(pos: nat, data: seq<byte>)

  /** The ways `main` stops early; in the source each is a panic from `expect`. */
  datatype Failure = SeekFailed | PoolFailed | BlockTooLarge | WriteFailed(iteration: nat)

  /**
    The report of a run: total time spent inside writes and total time of the
    loop (the two `dbg!` lines), or the failure that ended it.
   */
  datatype Outcome = Finished(writeTime: nat, elapsed: nat) | Aborted(failure: Failure)

  /**
    A target file opened for direct I/O: its position, and in `log` the
    `write_all` calls that completed, in order, empty ones included.
   */
  class DirectFile {
    var pos: nat
    var log: seq<Block>

    constructor ()
      ensures pos == 0 && log == []
    {
      pos := 0;
      log := [];
    }

    /** `seek(SeekFrom::Start(offset))`, which the device accepts when `ok`. */
    method Seek(offset: nat, ok: bool) returns (success: bool)
      modifies this
      ensures success == ok
      ensures pos == (if ok then offset else old(pos)) && log == old(log)
    {
      success := ok;
      if ok {
        pos := offset;
      }
    }

    /**
      `write_all(buf)`: an empty buffer succeeds without asking the device;
      otherwise the device accepts all of `buf` at the current position when
      `deviceOk`, and the position moves past it.
     */
    method WriteAll(buf: seq<byte>, deviceOk: bool) returns (success: bool)
      modifies this
      ensures success == WriteSucceeds(|buf|, deviceOk)
      ensures success ==> log == old(log) + [Block(old(pos), buf)] && pos == old(pos) + |buf|
      ensures !success ==> log == old(log) && pos == old(pos)
    {
      success := |buf| == 0 || deviceOk;
      if success {
        log := log + [Block(pos, buf)];
        pos := pos + |buf|;
      }
    }
  }

  /** Whether `write_all` of `n` bytes succeeds when the device answers `deviceOk`. */
  predicate WriteSucceeds(n: nat, deviceOk: bool): (r: bool)
    ensures n == 0 ==> r
    ensures 0 < n ==> (r <==> deviceOk)
  {
    n == 0 || deviceOk
  }

  /** The clock never goes back. */
  predicate Monotone(clock: seq<nat>) {
    forall i, j :: 0 <= i <= j < |clock| ==> clock[i] <= clock[j]
  }

  /**
    `later.duration_since(earlier)`, which `Instant::elapsed` uses: the time
    between two readings, saturating at zero if the clock went back.
   */
  function Elapsed(earlier: nat, later: nat): (d: nat)
    ensures earlier <= later ==> earlier + d == later
    ensures later < earlier ==> d == 0
  {
    if earlier <= later then later - earlier else 0
  }

  /**
    The time inside the first `k` writes: the sum that `total_time1`
    accumulates. On a monotonic clock it never exceeds the time from the
    first reading to the reading after write `k`.
   */
  function WriteTime(clock: seq<nat>, k: nat): (t: nat)
    requires 2 * k < |clock|
    ensures k == 0 ==> t == 0
    ensures Monotone(clock) ==> t <= clock[2 * k] - clock[0]
  {
    if k == 0 then 0 else WriteTime(clock, k - 1) + Elapsed(clock[2 * k - 1], clock[2 * k])
  }

  lemma MulStep(k: nat, bs: nat)
    requires 0 < k
    ensures (k - 1) * bs + bs == k * bs
  {
  }

  /** Each of the first `k` fills has exactly `bs` bytes. */
  predicate ChunksOf(bs: nat, fills: seq<seq<byte>>, k: nat) {
    k <= |fills| && forall i :: 0 <= i < k ==> |fills[i]| == bs
  }

  /** The writes of the first `k` iterations of a run whose every write succeeds. */
  function ExpectedWrites(offset: nat, bs: nat, fills: seq<seq<byte>>, k: nat): (w: seq<Block>)
    requires k <= |fills|
    ensures |w| == k
  {
    if k == 0 then []
    else ExpectedWrites(offset, bs, fills, k - 1) + [Block(offset + (k - 1) * bs, fills[k - 1])]
  }

  /** All bytes of a sequence of writes, in order. */
  function Concat(log: seq<Block>): seq<byte> {
    if log == [] then [] else Concat(log[..|log| - 1]) + log[|log| - 1].data
  }

  /** All bytes of a sequence of fills, in order. */
  function Flatten(chunks: seq<seq<byte>>): seq<byte> {
    if chunks == [] then [] else Flatten(chunks[..|chunks| - 1]) + chunks[|chunks| - 1]
  }

  /** Each write starts where the one before it ended, the first one at `start`. */
  predicate Sequential(start: nat, log: seq<Block>) {
    && (|log| > 0 ==> log[0].pos == start)
    && forall i :: 0 < i < |log| ==> log[i].pos == log[i - 1].pos + |log[i - 1].data|
  }

  /** Iteration `i` writes the bytes it filled in, at `offset + i * bs`. */
  lemma {:induction false} ExpectedWriteAt(offset: nat, bs: nat, fills: seq<seq<byte>>, k: nat, i: nat)
    requires i < k <= |fills|
    ensures ExpectedWrites(offset, bs, fills, k)[i] == Block(offset + i * bs, fills[i])
  {
    if i < k - 1 {
      ExpectedWriteAt(offset, bs, fills, k - 1, i);
    }
  }

  /** The file receives the random bytes of the first `k` fills, in order, and nothing else. */
  lemma {:induction false} ExpectedWritesCarryFills(offset: nat, bs: nat, fills: seq<seq<byte>>, k: nat)
    requires k <= |fills|
    ensures Concat(ExpectedWrites(offset, bs, fills, k)) == Flatten(fills[..k])
  {
    if k > 0 {
      var w := ExpectedWrites(offset, bs, fills, k);
      assert w[..k - 1] == ExpectedWrites(offset, bs, fills, k - 1);
      assert fills[..k][..k - 1] == fills[..k - 1];
      ExpectedWritesCarryFills(offset, bs, fills, k - 1);
    }
  }

  /** `k` fills of `bs` bytes each are `k * bs` bytes in all. */
  lemma {:induction false} FlattenLength(bs: nat, fills: seq<seq<byte>>, k: nat)
    requires ChunksOf(bs, fills, k)
    ensures |Flatten(fills[..k])| == k * bs
  {
    if k > 0 {
      assert fills[..k][..k - 1] == fills[..k - 1];
      FlattenLength(bs, fills, k - 1);
      MulStep(k, bs);
    }
  }

  /** The writes are contiguous from `offset` on, and the last one ends at `offset + k * bs`. */
  lemma ExpectedWritesSequential(offset: nat, bs: nat, fills: seq<seq<byte>>, k: nat)
    requires ChunksOf(bs, fills, k)
    ensures Sequential(offset, ExpectedWrites(offset, bs, fills, k))
    ensures k > 0 ==>
      ExpectedWrites(offset, bs, fills, k)[k - 1].pos + |ExpectedWrites(offset, bs, fills, k)[k - 1].data| == offset + k * bs
  {
    var w := ExpectedWrites(offset, bs, fills, k);
    forall i | 0 <= i < k
      ensures w[i].pos == offset + i * bs && |w[i].data| == bs
    {
      ExpectedWriteAt(offset, bs, fills, k, i);
    }
    forall i | 0 < i < k
      ensures w[i].pos == w[i - 1].pos + |w[i - 1].data|
    {
      MulStep(i, bs);
    }
    if k > 0 {
      MulStep(k, bs);
    }
  }

  /**
    The view `main` builds at src/main.rs:117 and :120, as written: `bs`
    bytes from the aligned base, whatever `bs` is.
   */
  function MainBlockView(p: HugePool, bs: Usize): (s: Slice)
    ensures Wellformed(p) && bs <= Capacity(p) ==> s == ToMutSlice(p, bs)
  {
    Slice(Region(p.aligned, bs), Exclusive)
  }

  /**
    As written, a block size more than one page beyond the pool, such as
    `--bs 20971520`, makes `main` lend a view that runs past the end of the
    mapping, whatever address `mmap` returned.
   */
  lemma OversizedBlockLeavesMapping(mapped: Usize)
    requires MmapContract(POOL_REQUEST + PAGE, mapped) && mapped != MAP_FAILED
    ensures New(POOL_REQUEST, mapped).Some?
    ensures forall bs: Usize :: bs > POOL_REQUEST + PAGE ==>
      !Within(MainBlockView(New(POOL_REQUEST, mapped).value, bs).region, MappedRegion(New(POOL_REQUEST, mapped).value))
    ensures !Within(MainBlockView(New(POOL_REQUEST, mapped).value, 2 * POOL_REQUEST).region, MappedRegion(New(POOL_REQUEST, mapped).value))
  {
    assert IsPageAligned(POOL_REQUEST);
    NewReturnsAlignedPool(POOL_REQUEST, mapped);
    var p := New(POOL_REQUEST, mapped).value;
    forall bs: Usize | bs > POOL_REQUEST + PAGE
      ensures !Within(MainBlockView(p, bs).region, MappedRegion(p))
    {
      assert p.aligned + bs > p.pool + p.len;
    }
  }

  /**
    The view with the check `main` lacks: `to_mut_slice(bs)` when `bs` fits
    in the pool, and no view otherwise.
   */
  function CheckedBlockView(p: HugePool, bs: Usize): (s: Option<Slice>)
    requires Wellformed(p)
    ensures s.Some? <==> bs <= Capacity(p)
    ensures s.Some? ==> s.value == ToMutSlice(p, bs) && Within(s.value.region, MappedRegion(p))
  {
    if bs <= Capacity(p) then Some(ToMutSlice(p, bs)) else None
  }

  /** The pool is built and the loop is entered: seek and `mmap` succeed and the block fits. */
  predicate Launched(cfg: Config, env: Env) {
    env.seekOk && env.mmapAnswer != MAP_FAILED && cfg.bs <= POOL_REQUEST
  }

  /** `opt.offset.unwrap_or(0)`. */
  function StartOffset(cfg: Config): (o: nat)
    ensures cfg.offset.None? ==> o == 0
    ensures cfg.offset.Some? ==> o == cfg.offset.value
  {
    match cfg.offset
    case Some(o) => o
    case None => 0
  }

  /**
    `main` after the target is opened. Besides the outcome it returns the
    regions passed to `munmap`. The pool is built after the seek, as in the
    source, and, unlike the source, a block size larger than the pool is
    refused before the loop.
   */
  method RunBenchmark(file: DirectFile, cfg: Config, env: Env) returns (outcome: Outcome, unmapped: seq<Region>)
    requires MmapContract(POOL_REQUEST + PAGE, env.mmapAnswer)
    requires Monotone(env.clock) && 2 * cfg.count + 1 < |env.clock|
    requires cfg.count <= |env.deviceOk| && ChunksOf(cfg.bs, env.fills, cfg.count)
    modifies file
    // Before the loop.
    ensures !env.seekOk ==> outcome == Aborted(SeekFailed) && file.log == old(file.log)
    ensures env.seekOk && env.mmapAnswer == MAP_FAILED ==> outcome == Aborted(PoolFailed) && file.log == old(file.log)
    ensures env.seekOk && env.mmapAnswer != MAP_FAILED && cfg.bs > POOL_REQUEST ==>
      outcome == Aborted(BlockTooLarge) && file.log == old(file.log)
    // The pool is released exactly once if it was built, and released whole.
    ensures unmapped == if env.seekOk && env.mmapAnswer != MAP_FAILED
      then [Region(env.mmapAnswer, POOL_REQUEST + PAGE)] else []
    // The loop runs to the end exactly when every write succeeds.
    ensures Launched(cfg, env) ==>
      (outcome.Finished? <==> forall j :: 0 <= j < cfg.count ==> WriteSucceeds(cfg.bs, env.deviceOk[j]))
    ensures outcome.Finished? ==>
      && Launched(cfg, env)
      && file.log == old(file.log) + ExpectedWrites(StartOffset(cfg), cfg.bs, env.fills, cfg.count)
      && file.pos == StartOffset(cfg) + cfg.count * cfg.bs
      && outcome.writeTime == WriteTime(env.clock, cfg.count)
      && outcome.elapsed == env.clock[2 * cfg.count + 1] - env.clock[0]
      && outcome.writeTime <= outcome.elapsed
    // Once launched, only a failing write stops the run early.
    ensures Launched(cfg, env) && outcome.Aborted? ==> outcome.failure.WriteFailed?
    // A failed write stops the loop: nothing is written after it.
    ensures outcome.Aborted? && outcome.failure.WriteFailed? ==>
      && Launched(cfg, env)
      && outcome.failure.iteration < cfg.count
      && !WriteSucceeds(cfg.bs, env.deviceOk[outcome.failure.iteration])
      && (forall j :: 0 <= j < outcome.failure.iteration ==> WriteSucceeds(cfg.bs, env.deviceOk[j]))
      && file.log == old(file.log) + ExpectedWrites(StartOffset(cfg), cfg.bs, env.fills, outcome.failure.iteration)
      && file.pos == StartOffset(cfg) + outcome.failure.iteration * cfg.bs
  {
    var offset := StartOffset(cfg);
    var sought := file.Seek(offset, env.seekOk);
    if !sought {
      return Aborted(SeekFailed), [];
    }
    var built := New(POOL_REQUEST, env.mmapAnswer);
    if built.None? {
      return Aborted(PoolFailed), [];
    }
    assert IsPageAligned(POOL_REQUEST);
    NewReturnsAlignedPool(POOL_REQUEST, env.mmapAnswer);
    var owned := new OwnedPool(built.value);
    var view := CheckedBlockView(owned.pool, cfg.bs);
    if view.None? {
      var r := owned.Drop();
      return Aborted(BlockTooLarge), [r];
    }
    var totalTime2 := env.clock[0];
    var failedAt, totalTime1 := TimedWrites(file, owned, cfg.bs, cfg.count, env);
    if failedAt.Some? {
      outcome := Aborted(WriteFailed(failedAt.value));
    } else {
      var elapsed := Elapsed(totalTime2, env.clock[2 * cfg.count + 1]);
      outcome := Finished(totalTime1, elapsed);
    }
    // `huge_pool` goes out of scope at the end of `main`, after the last reading.
    var r := owned.Drop();
    unmapped := [r];
  }

  /**
    The `for _ in 0..count` loop of `main`: fill, read the clock, write,
    add the time the write took. It stops at the first failing write and
    names its iteration; `total_time1` is then discarded.
   */
  method TimedWrites(file: DirectFile, owned: OwnedPool, bs: Usize, count: nat, env: Env)
    returns (failedAt: Option<nat>, totalTime1: nat)
    requires owned.Valid() && !owned.released && bs <= Capacity(owned.pool)
    requires 2 * count < |env.clock|
    requires count <= |env.deviceOk| && ChunksOf(bs, env.fills, count)
    modifies file, owned.mem
    ensures owned.Valid() && !owned.released
    ensures failedAt.None? <==> forall j :: 0 <= j < count ==> WriteSucceeds(bs, env.deviceOk[j])
    ensures failedAt.None? ==>
      && file.log == old(file.log) + ExpectedWrites(old(file.pos), bs, env.fills, count)
      && file.pos == old(file.pos) + count * bs
      && totalTime1 == WriteTime(env.clock, count)
    ensures failedAt.Some? ==>
      && failedAt.value < count
      && !WriteSucceeds(bs, env.deviceOk[failedAt.value])
      && (forall j :: 0 <= j < failedAt.value ==> WriteSucceeds(bs, env.deviceOk[j]))
      && file.log == old(file.log) + ExpectedWrites(old(file.pos), bs, env.fills, failedAt.value)
      && file.pos == old(file.pos) + failedAt.value * bs
    // The pool holds the last fill at its aligned base, and no other byte of it changed.
    ensures failedAt.Some? ==> owned.SliceBytes(bs) == env.fills[failedAt.value]
    ensures failedAt.None? && count > 0 ==> owned.SliceBytes(bs) == env.fills[count - 1]
    ensures count == 0 ==> owned.mem[..] == old(owned.mem[..])
    ensures forall k :: 0 <= k < owned.mem.Length && !(owned.Base() <= k < owned.Base() + bs) ==>
      owned.mem[k] == old(owned.mem[k])
  {
    var offset := file.pos;
    totalTime1 := 0;
    var i := 0;
    while i < count
      invariant 0 <= i <= count
      invariant owned.Valid() && !owned.released
      invariant forall j :: 0 <= j < i ==> WriteSucceeds(bs, env.deviceOk[j])
      invariant file.log == old(file.log) + ExpectedWrites(offset, bs, env.fills, i)
      invariant file.pos == offset + i * bs
      invariant totalTime1 == WriteTime(env.clock, i)
      invariant i == 0 ==> owned.mem[..] == old(owned.mem[..])
      invariant i > 0 ==> owned.SliceBytes(bs) == env.fills[i - 1]
      invariant forall k :: 0 <= k < owned.mem.Length && !(owned.Base() <= k < owned.Base() + bs) ==>
        owned.mem[k] == old(owned.mem[k])
    {
      owned.Fill(env.fills[i]);
      var now := env.clock[2 * i + 1];
      var ok := file.WriteAll(owned.SliceBytes(bs), env.deviceOk[i]);
      if !ok {
        return Some(i), totalTime1;
      }
      totalTime1 := totalTime1 + Elapsed(now, env.clock[2 * i + 2]);
      MulStep(i + 1, bs);
      i := i + 1;
    }
    failedAt := None;
  }
}
