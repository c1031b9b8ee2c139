# bsonsplit, modelled in Dafny

bsonsplit reads a file of back-to-back BSON documents and spreads the documents
round-robin over `split` new output files named `{stem}-{millis}-{i}.bson`,
`i = 1..split`. The `k`-th decoded document (0-based) goes to sink `k % split`,
which is the file with index `k % split + 1`.
All files are flushed after every 100 000 written documents and once more at the
end. On success the tool prints the output paths. Any error ends the run at once:
a usage error, a clock before the Unix epoch, a file that cannot be created, a
decode error, or a failed write or flush.

This project models `src/main.rs` in five modules:

- `Errors` (errors.dfy): the outcome types every part shares: `Option`, `Result`,
  the decoder's I/O error kinds, and the errors that end a run.
- `Decode` (decode.dfy): the decode outcomes and `process_doc`. The input file is
  the sequence of outcomes that successive `Document::from_reader` calls return,
  with documents as opaque values. `Documents` and `Ending` say which documents
  the main loop sees and how the stream ends.
- `Naming` (naming.dfy): `validate`, the decimal path names and the `create_files`
  loop. The loop stops at the first path the file system refuses.
- `Trace` (trace.dfy): a loop-free specification of a run.
  - `Share`/`Shares` give the round-robin contents of every sink.
  - `Schedule` gives the exact sequence of writes and flushes a fault-free run
    performs.
  - `Attempt` cuts an operation sequence at its first failing operation, which is
    the behaviour of `?` on each write and flush.
- `Split` (splitter.dfy): the imperative part.
  - Class `Splitter` holds the output buffers (an array of document sequences),
    the round-robin position, the `writes` counter, the number of decode attempts
    consumed, and the log of every `to_writer` write and every `flush_all` flush
    attempted.
  - Its methods are `flush_all`, one pass of the main loop, and the whole loop with
    the final flush.
  - `Run` is `main` from `validate` to the last flush.

The I/O faults are a parameter, `faults`. Every write and flush has a number, its
position in the run's log, and the operation fails exactly when that number is in
`faults`. The main result, `Splitter.Distribute`, holds for every fault set:

- the log equals the `Attempt` of the fault-free `Schedule`;
- `writes` is `WritesDone` of the log, the number of writes in it that succeeded;
- the sinks hold the round-robin shares of exactly those first `writes` documents;
- the outcome is success, the stream's own decode error, or `WriteFailed` /
  `FlushFailed` according to the kind of the last operation attempted.

`process_doc` maps every I/O error of kind `UnexpectedEof` to the end of the stream
(src/main.rs:35-36). So a stream that stops inside a document also ends successfully,
just like one that stops at a document boundary. `ProcessDoc` and `Ending` model
this: `IoFailure(UnexpectedEof)` always means a clean end, wherever the reader
stopped.

## Model

| member | source | states |
|---|---|---|
| Decode.ProcessDoc | src/main.rs:30-44 | A decoded document passes through unchanged (`Ok(Some(doc))`). An I/O error of kind `UnexpectedEof`, and only that, gives `Ok(None)`. Every other I/O error gives `IoError` with its kind, and any other decode error gives `BsonError`. The result is an error exactly in those two cases. |
| Decode.Documents | src/main.rs:95-109 | The documents the main loop receives are exactly the leading run of successful decodes, in input order. The outcome right after them is not a document. |
| Decode.Ending | src/main.rs:95-108 | The first non-document outcome either ends the loop cleanly (`Ok(None)`) or is an error. It ends cleanly exactly when that outcome is `UnexpectedEof`, including when the reader is exhausted. |
| Decode.AllDocumentsEndCleanly | src/main.rs:95-108 | An input consisting only of decodable documents yields all of them and then ends cleanly. |
| Decode.ProcessNext | src/main.rs:96 | The `k`-th call of `process_doc` in the loop yields the `k`-th document while documents remain, and the stream's ending after that. |
| Naming.Validate | src/main.rs:23-28 | Succeeds exactly when `split >= 1`; otherwise the error is a usage error. |
| Naming.NatToString | src/main.rs:55 | The `{}` rendering of a number is non-empty, all decimal digits, without a leading zero, and one digit long exactly for numbers below ten. |
| Naming.ParseNatToString | src/main.rs:55 | Reading the decimal rendering back gives the original number. |
| Naming.NatToStringInjective | src/main.rs:55 | Different numbers render differently. |
| Naming.PathIndex | src/main.rs:55 | Every path is `{prefix}-{runtime}-` + digits + `.bson`, and the digits read back as the file index. |
| Naming.PathNamesDistinct | src/main.rs:54-55 | Within one run, different indices give different paths, so no two output files coincide. |
| Naming.PathsDistinct | src/main.rs:52-56 | The `split` paths a run reports are pairwise distinct, so no output file is created twice. |
| Naming.CreateFiles | src/main.rs:46-61 | A missing clock reading gives `ClockFailed` and creates nothing. Otherwise it succeeds exactly when no path of the run is refused, and then returns the paths for indices 1..split in order, all of them created. On failure the error is a plain `CreateFailed`, and the files left on disk are exactly those for the indices below the first refused one. |
| Trace.ShareLength | src/main.rs:92-99 | Sink `j` of `n` receives `ceil((d - j) / n)` of `d` documents: one per index below `d` that is `j` mod `n`. |
| Trace.ShareAt | src/main.rs:92-99 | The `k`-th document is entry `k / n` of sink `k % n`. |
| Trace.ShareOrdered | src/main.rs:92-99 | Entry `i` of sink `j` is document `j + i*n`, so a sink holds only its residue class, in input order. |
| Trace.SharesTotal | src/main.rs:92-99 | The sink sizes add up to the number of documents, so none is lost or duplicated. |
| Trace.ShareStep | src/main.rs:97-99 | Writing the `w`-th document appends it to sink `w % n` and to no other sink. |
| Trace.SharesStep | src/main.rs:97-99 | Appending the `w`-th document to sink `w % n` turns the shares of `w` documents into the shares of `w + 1`. |
| Trace.SlotClosedForm | src/main.rs:101-105 | The `k`-th write is preceded by `k` writes and `k / 100000` full flush rounds. |
| Trace.BatchesLength | src/main.rs:95-109 | The main loop over `d` documents performs `Slot(d, n)` operations. |
| Trace.BatchesAt | src/main.rs:97-105 | In the loop's operations, the `k`-th write goes to sink `k % n`. It is followed by exactly one flush of each sink in index order when `k + 1` is a multiple of 100 000, and by nothing otherwise. |
| Trace.BatchesPrefix | src/main.rs:95-109 | The operations for the first `m` documents are a prefix of those for all documents. |
| Trace.StepInBatches | src/main.rs:95-109 | The `w`-th document's block of operations directly follows the blocks of the documents before it. |
| Trace.AttemptPrefix | src/main.rs:63-68 | The operations attempted are a prefix of those requested. Either all were attempted and none failed, or the last one attempted is the first that failed. |
| Trace.AttemptClear | src/main.rs:63-68 | When no operation fails, all of them are attempted. |
| Trace.AttemptStopsAt | src/main.rs:64-65 | When the operation at offset `j` is the first to fail, exactly the first `j + 1` operations are attempted. |
| Trace.AttemptPast | src/main.rs:95-111 | When a first sequence completes without failure, a following sequence starts at the next position. |
| Trace.AttemptStopsIn | src/main.rs:95-111 | When a first sequence has a failing operation, nothing after it is attempted. |
| Trace.AttemptWithin | src/main.rs:95-111 | A failure inside a block at position `q`, with everything before `q` succeeding, ends the run inside that block. |
| Trace.AttemptStep | src/main.rs:99-105 | For one document, a failed write ends the step after the write. Otherwise the step ends after the write, plus the flush round when the count has reached a multiple of 100 000. |
| Trace.WritesDoneAppend | src/main.rs:95-111 | The successful writes of two consecutive stretches of the trace add up. |
| Trace.FlushRoundWritesNothing | src/main.rs:63-68 | A `flush_all` round, complete or cut short by a failure, writes no document. |
| Trace.StepWrites | src/main.rs:99-105 | One document's operations write it exactly when its write succeeds, whatever becomes of the flushes after it. |
| Trace.BatchesWrites | src/main.rs:95-109 | When none of its operations fails, the main loop writes every document exactly once. |
| Trace.BlockAfter | src/main.rs:99-105 | One document's block adds one successful write to the trace before it, unless its write fails. |
| Trace.FlushRoundAfter | src/main.rs:104 | A flush round adds no successful write to the trace before it. |
| Trace.FinalRoundWrites | src/main.rs:111 | The final `flush_all` leaves the count of documents written by the loop unchanged. |
| Trace.TraceStep | src/main.rs:96-105 | A document whose operations all succeed extends the loop's trace to that of one more document, with no failure so far. |
| Trace.TraceStop | src/main.rs:96-105 | A failing operation in the `w`-th document's block ends the main loop's operations there. The documents written are then the first `w`, plus the `w`-th exactly when its own write succeeded. |
| Trace.StopBeforeFinal | src/main.rs:104-111 | A run that stops inside the main loop never reaches the final flush round. |
| Trace.TraceDecodeError | src/main.rs:96 | A decode error after the documents ends the run with the loop's operations and no final flush, with every document written. |
| Trace.TraceFinal | src/main.rs:111 | After a clean end the final flush round completes the run's operations. The run is fault-free exactly when that round is, and every document is written either way. |
| Split.Splitter.constructor | src/main.rs:87-93 | `n` empty output buffers, round-robin position 0, no writes, nothing consumed or logged. |
| Split.Splitter.NextSink | src/main.rs:97 | Returns the current position, always below `n`, and advances it by one mod `n`. |
| Split.Splitter.WriteDoc | src/main.rs:98-100 | Logs the write. It succeeds exactly when its operation number is not a fault, and then appends the document to that sink; all other sinks are unchanged. |
| Split.Splitter.FlushAll | src/main.rs:63-68 | Logs the flushes of sinks 0..n-1 in order, up to and including the first that fails. It succeeds exactly when none fails, and on failure the last logged operation is a flush. |
| Split.Splitter.Dispatch | src/main.rs:97-105 | Logs the attempted part of the document's write-then-maybe-flush block and advances the position mod `n`. It succeeds exactly when the whole block succeeds. `writes` and the chosen sink grow only when the write succeeds. The error says whether a write or a flush failed. |
| Split.Splitter.Pull | src/main.rs:95-109 | One loop pass does one of three things. It keeps the loop state (trace of `w` documents, no failure, position `w mod n`, round-robin shares) for one more document. Or it ends the stream cleanly after all documents. Or it ends the run with the exact error and trace, and with the sinks holding exactly the documents whose writes succeeded. |
| Split.Splitter.Deliver | src/main.rs:96-105 | Dispatching the next document either keeps the loop state for one more document, or cuts the run's operations at their first failure with the matching error. In the second case `writes` grows by one exactly when the document's own write succeeded, and the sinks hold exactly the documents written. |
| Split.Splitter.Distribute | src/main.rs:92-111 | For any faults, the log is the fault-free schedule cut at its first failure. `writes` is the number of successful writes in that log, and the sinks hold the round-robin shares of exactly those documents. Without faults, every document is written and exactly one attempt past them is consumed. The outcome is then success, or the stream's decode error. With a fault, the outcome is `WriteFailed` or `FlushFailed` according to the last operation attempted. |
| Split.Run | src/main.rs:70-115 | Covers every phase of a run. Usage and clock errors come before any file or I/O. A creation error leaves exactly the files below the first refused index, all empty. After that the trace is the cut schedule, and the files hold the round-robin shares of exactly the documents whose writes in the trace succeeded. Success returns the paths in order, and the file sizes add up to the number of documents. |

## Left out

- Argument parsing, opening the input file and taking its file stem are not part of
  this model. Neither are `println!` of the paths and the process exit; the stem is
  the `prefix` parameter and the printed paths are `Run`'s result.
- BSON decoding and encoding are not modelled: a document is an opaque value. The
  decoder's behaviour is the sequence of outcomes it returns, and an exhausted reader
  reports `UnexpectedEof`.
- `SystemTime::now()` is the `clock` parameter (`None` when the clock is before the
  epoch); the millisecond value is an unbounded natural.
- The file system is the set `unwritable` of paths `File::create` refuses. The
  `io::Error` of a refused creation carries no path, and neither does `CreateFailed`.
  The files a failed `create_files` leaves behind are its `created` result instead.
- When `main` returns, successfully or through any `?`, the `BufWriter`s are dropped.
  Dropping one writes out its buffer and ignores any error. The log records only
  `to_writer` writes and `flush_all` flushes, not these writes at drop.
- `BufWriter` buffering and partial writes are not modelled. A write either fails and
  leaves its sink unchanged, or appends the whole document. A flush moves no data in
  the model.
- Split.Splitter.Dispatch: `writes` is an unbounded integer, so i64 overflow of the
  counter is not modelled. It would need more than 2^63 documents.
- Naming.Validate: `split` is a natural rather than a `u32`; values above 2^32 - 1,
  which the argument parser rejects, are not excluded.
