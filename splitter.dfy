/**
  The round-robin distributor of bsonsplit: the body of `main` from the creation
  of the output buffers to the final flush, and `flush_all`.

  A `Splitter` holds the `n` output buffers (each the sequence of documents
  written to it), the round-robin `cycle` position, the `writes` counter, the
  number of decode attempts consumed from the input, and the trace `log` of every
  write and flush attempted. An I/O operation fails when its position in the
  trace is one of `faults`.
 */
module Split {
  import opened Errors
  import opened Decode
  import opened Naming
  import opened Trace

  class Splitter<D> {
    const n: nat
    const faults: set<nat>
    const sinks: array<seq<D>>
    var cycle: nat
    var writes: int
    var consumed: nat
    var log: seq<Op<D>>

    ghost predicate Valid()
      reads this
    {
      n >= 1 && sinks.Length == n && cycle < n && writes >= 0
    }

    /** The `BufWriter`s over the `n` freshly created output files, all empty. */
    constructor (n: nat, faults: set<nat>)
      requires n >= 1
      ensures Valid() && fresh(sinks)
      ensures this.n == n && this.faults == faults
      ensures cycle == 0 && writes == 0 && consumed == 0 && log == []
      ensures forall j :: 0 <= j < n ==> sinks[j] == []
    {
      this.n := n;
      this.faults := faults;
      sinks := new seq<D>[n](_ => []);
      cycle, writes, consumed, log := 0, 0, 0, [];
    }

    /** `cycle.next().unwrap()` on `(0..n).cycle()`: the current index, then one on, mod `n`. */
    method NextSink() returns (i: nat)
      requires Valid()
      modifies this`cycle
      ensures Valid()
      ensures i == old(cycle) && i < n && cycle == (i + 1) % n
    {
      i := cycle;
      cycle := (cycle + 1) % n;
    }

    /** `doc.to_writer(&mut output[i])`: appends the document to sink `i` unless the write fails. */
    method WriteDoc(i: nat, doc: D) returns (ok: bool)
      requires Valid() && i < n
      modifies this`log, sinks
      ensures Valid()
      ensures log == old(log) + [Write(i, doc)]
      ensures ok <==> |old(log)| !in faults
      ensures sinks[..] == if ok then old(sinks[..])[i := old(sinks[i]) + [doc]] else old(sinks[..])
    {
      ok := |log| !in faults;
      log := log + [Write(i, doc)];
      if ok {
        sinks[i] := sinks[i] + [doc];
      }
    }

    /** `flush_all`: flushes the sinks in index order and stops at the first flush that fails. */
    method FlushAll() returns (ok: bool)
      requires Valid()
      modifies this`log
      ensures Valid()
      ensures log == old(log) + Attempt(FlushRound(n), faults, |old(log)|)
      ensures ok <==> Clear(faults, |old(log)|, n)
      ensures !ok ==> |log| > |old(log)| && log[|log| - 1].Flush?
    {
      ghost var start := |log|;
      var j := 0;
      while j < n
        invariant 0 <= j <= n
        invariant log == old(log) + FlushRound(n)[..j]
        invariant Clear(faults, start, j)
      {
        var failed := |log| in faults;
        log := log + [Flush(j)];
        if failed {
          AttemptStopsAt(FlushRound<D>(n), faults, start, j);
          assert FlushRound<D>(n)[..j + 1] == FlushRound(n)[..j] + [Flush(j)];
          return false;
        }
        assert FlushRound<D>(n)[..j + 1] == FlushRound(n)[..j] + [Flush(j)];
        j := j + 1;
      }
      assert FlushRound<D>(n)[..n] == FlushRound(n);
      AttemptClear(FlushRound<D>(n), faults, start);
      return true;
    }

    /**
      The branch of the main loop for a decoded document: `cycle.next().unwrap()`,
      `to_writer` into that sink, `writes += 1`, and `flush_all` when `writes` has
      reached a multiple of `AUTO_FLUSH`; a failing write or flush is returned.
     */
    method Dispatch(doc: D) returns (r: Result<(), Error>)
      requires Valid()
      modifies this`cycle, this`writes, this`log, sinks
      ensures Valid()
      ensures cycle == (old(cycle) + 1) % n
      ensures log == old(log) + Attempt(StepOps(old(cycle), old(writes) + 1, doc, n), faults, |old(log)|)
      ensures r.Ok? <==> Clear(faults, |old(log)|, |StepOps(old(cycle), old(writes) + 1, doc, n)|)
      ensures r.Err? ==> |log| > 0 && r.error == if log[|log| - 1].Write? then WriteFailed else FlushFailed
      ensures |old(log)| !in faults ==>
        writes == old(writes) + 1 && sinks[..] == old(sinks[..])[old(cycle) := old(sinks[cycle]) + [doc]]
      ensures |old(log)| in faults ==> writes == old(writes) && sinks[..] == old(sinks[..])
    {
      ghost var log0 := log;
      ghost var start := |log|;
      AttemptStep(cycle, writes + 1, doc, n, faults, start);
      var i := NextSink();
      var ok := WriteDoc(i, doc);
      if !ok {
        return Err(WriteFailed);
      }
      writes := writes + 1;
      if writes % AUTO_FLUSH == 0 {
        ghost var written := log;
        assert written == log0 + [Write(i, doc)];
        ok := FlushAll();
        ghost var flushed := Attempt(FlushRound<D>(n), faults, start + 1);
        assert log == written + flushed;
        SeqAssoc(log0, [Write(i, doc)], flushed);
        if !ok {
          return Err(FlushFailed);
        }
      }
      return Ok(());
    }

    /**
      The state of the main loop after the first `writes` documents of `docs` went
      out without a failure: the round-robin position is `writes % n`, the trace is
      their scheduled operations, and the sinks hold their round-robin shares.
     */
    ghost predicate Loaded(docs: seq<D>)
      reads this, sinks
    {
      Valid() && writes <= |docs| && cycle == writes % n &&
      log == Batches(docs[..writes], n) && Clear(faults, 0, |log|) &&
      sinks[..] == Shares(docs[..writes], n)
    }

    /**
      One pass of the main `loop`: one decode attempt through `process_doc`, then the
      dispatch of the document it yields. `Ok(true)`: a document went out and the loop
      goes on; `Ok(false)`: the stream has ended (`break`); an error ends the run.
     */
    method Pull(input: seq<DecodeResult<D>>) returns (r: Result<bool, Error>)
      requires Loaded(Documents(input)) && consumed == writes
      modifies this`cycle, this`writes, this`consumed, this`log, sinks
      ensures Valid() && consumed == old(consumed) + 1
      ensures r == Ok(true) ==> Loaded(Documents(input)) && writes == old(writes) + 1
      ensures r == Ok(false) ==>
        Loaded(Documents(input)) && writes == old(writes) == |Documents(input)| && Ending(input) == Ok(None)
      ensures r.Err? ==>
        log == Attempt(Schedule(input, n), faults, 0) && writes == WritesDone(log, faults, 0) &&
        writes <= |Documents(input)| && sinks[..] == Shares(Documents(input)[..writes], n)
      ensures r.Err? && Clear(faults, 0, |Schedule(input, n)|) ==>
        writes == |Documents(input)| && consumed == writes + 1 && Ending(input) == Err(r.error)
      ensures r.Err? && !Clear(faults, 0, |Schedule(input, n)|) ==>
        |log| > 0 && r.error == if log[|log| - 1].Write? then WriteFailed else FlushFailed
    {
      ghost var docs := Documents(input);
      ProcessNext(input, consumed);
      var res := ProcessDoc(Next(input, consumed));
      consumed := consumed + 1;
      if res.Err? {
        assert docs[..writes] == docs;
        TraceDecodeError(input, n, faults, log);
        return Err(res.error);
      }
      if res.value.None? {
        return Ok(false);
      }
      r := Deliver(docs, res.value.value);
      if r.Err? {
        StopBeforeFinal(input, n, faults);
      }
    }

    /** `Dispatch` of the next document of `docs`, seen against the operations the main loop schedules. */
    method Deliver(ghost docs: seq<D>, doc: D) returns (r: Result<bool, Error>)
      requires Loaded(docs) && writes < |docs| && doc == docs[writes]
      modifies this`cycle, this`writes, this`log, sinks
      ensures Valid()
      ensures r.Ok? ==> r.value && Loaded(docs) && writes == old(writes) + 1
      ensures r.Err? ==>
        log == Attempt(Batches(docs, n), faults, 0) && !Clear(faults, 0, |Batches(docs, n)|) &&
        writes == WritesDone(log, faults, 0) == old(writes) + (if |old(log)| in faults then 0 else 1) &&
        writes <= |docs| && sinks[..] == Shares(docs[..writes], n)
      ensures r.Err? ==> |log| > 0 && r.error == if log[|log| - 1].Write? then WriteFailed else FlushFailed
    {
      ghost var w := writes;
      ghost var before := log;
      SharesStep(docs, n, w, sinks[..]);
      ModStep(w, n);
      var d := Dispatch(doc);
      if d.Err? {
        TraceStop(docs, n, w, faults, before, log);
        return Err(d.error);
      }
      TraceStep(docs, n, w, faults, before, log);
      return Ok(true);
    }

    /**
      The read/dispatch/flush loop of `main` and the final `flush_all`, on a fresh
      splitter. Documents are pulled in order and the `k`-th goes to sink `k % n`;
      after every `AUTO_FLUSH`-th write all sinks are flushed; the first end of
      stream stops the loop and is followed by one last flush round; a decode,
      write or flush error ends the run at once.
     */
    method Distribute(input: seq<DecodeResult<D>>) returns (r: Result<(), Error>)
      requires Valid()
      requires cycle == 0 && writes == 0 && consumed == 0 && log == []
      requires forall j :: 0 <= j < n ==> sinks[j] == []
      modifies this, sinks
      ensures Valid()
      ensures log == Attempt(Schedule(input, n), faults, 0)
      ensures writes == WritesDone(log, faults, 0)
      ensures 0 <= writes <= |Documents(input)| && consumed <= |Documents(input)| + 1
      ensures sinks[..] == Shares(Documents(input)[..writes], n)
      ensures Clear(faults, 0, |Schedule(input, n)|) ==>
        writes == |Documents(input)| && consumed == |Documents(input)| + 1 &&
        r == if Ending(input).Ok? then Ok(()) else Err(Ending(input).error)
      ensures !Clear(faults, 0, |Schedule(input, n)|) ==>
        |log| > 0 && r == Err(if log[|log| - 1].Write? then WriteFailed else FlushFailed)
    {
      assert sinks[..] == Shares(Documents(input)[..0], n);
      while true
        invariant Loaded(Documents(input)) && consumed == writes
        decreases |Documents(input)| - writes
      {
        var more := Pull(input);
        if more.Err? {
          return Err(more.error);
        }
        if !more.value {
          break;
        }
      }
      assert Documents(input)[..writes] == Documents(input);
      ghost var before := log;
      var ok := FlushAll();
      TraceFinal(input, n, faults, before, log);
      if !ok {
        return Err(FlushFailed);
      }
      return Ok(());
    }
  }

  /**
    `main` after argument parsing, for an input file whose stem is `prefix`:
    `validate`, `create_files`, the main loop and the final flush. On success the
    result holds the paths `main` prints. `files` is the final contents of the output
    files that exist, in index order, and `trace` every `to_writer` write and every
    `flush_all` flush attempted, in order.
   */
  method Run<D>(split: nat, prefix: string, clock: Option<nat>, unwritable: set<string>,
                input: seq<DecodeResult<D>>, faults: set<nat>)
    returns (r: Result<seq<string>, Error>, files: seq<seq<D>>, trace: seq<Op<D>>)
    ensures split < 1 ==> r == Err(Usage) && files == [] && trace == []
    ensures split >= 1 && clock.None? ==> r == Err(ClockFailed) && files == [] && trace == []
    ensures split >= 1 && clock.Some? && !Creatable(prefix, clock.value, split, unwritable) ==>
      r == Err(CreateFailed) && trace == [] && |files| < split &&
      Creatable(prefix, clock.value, |files|, unwritable) &&
      PathName(prefix, clock.value, |files| + 1) in unwritable &&
      forall j :: 0 <= j < |files| ==> files[j] == []
    ensures split >= 1 && clock.Some? && Creatable(prefix, clock.value, split, unwritable) ==>
      trace == Attempt(Schedule(input, split), faults, 0) &&
      WritesDone(trace, faults, 0) <= |Documents(input)| &&
      files == Shares(Documents(input)[..WritesDone(trace, faults, 0)], split)
    ensures (split >= 1 && clock.Some? && Creatable(prefix, clock.value, split, unwritable) &&
             Clear(faults, 0, |Schedule(input, split)|)) ==>
        files == Shares(Documents(input), split) &&
        r == if Ending(input).Ok? then Ok(Paths(prefix, clock.value, split)) else Err(Ending(input).error)
    ensures (split >= 1 && clock.Some? && Creatable(prefix, clock.value, split, unwritable) &&
             !Clear(faults, 0, |Schedule(input, split)|)) ==>
        |trace| > 0 && r == Err(if trace[|trace| - 1].Write? then WriteFailed else FlushFailed)
    ensures r.Ok? ==> SumLengths(files) == |Documents(input)|
  {
    files, trace := [], [];
    var valid := Validate(split);
    if valid.Err? {
      return Err(valid.error), files, trace;
    }
    var made, created := CreateFiles(prefix, clock, split, unwritable);
    if made.Err? {
      files := seq(|created|, _ => []);
      return Err(made.error), files, trace;
    }
    var paths := made.value;
    var s := new Splitter<D>(|paths|, faults);
    var outcome := s.Distribute(input);
    files, trace := s.sinks[..], s.log;
    assert 0 <= s.writes <= |Documents(input)| && files == Shares(Documents(input)[..s.writes], split);
    if Clear(faults, 0, |Schedule(input, split)|) {
      assert Documents(input)[..s.writes] == Documents(input);
    }
    if outcome.Err? {
      return Err(outcome.error), files, trace;
    }
    SharesTotal(Documents(input), split);
    return Ok(paths), files, trace;
  }
}
