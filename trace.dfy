/**
  The specification of what a bsonsplit run does to its output sinks, stated
  without the loop: the sequence of I/O operations (writes and flushes) a run
  attempts, where it stops when one of them fails, and which documents end up
  in which sink.

  I/O operations are numbered by their position in the run's trace; the set
  `faults` holds the numbers of the operations that fail.
 */
module Trace {
  import opened Errors
  import opened Decode

  /** `AUTO_FLUSH`: all sinks are flushed after every this many written documents. */
  const AUTO_FLUSH: nat := 100_000

  /** One I/O operation on an output sink. */
  datatype Op<D> = Write(sink: nat, doc: D) | Flush(sink: nat)

  // ---------------------------------------------------------------------------
  // Division facts

  lemma DivUnique(x: nat, n: nat, q: nat, r: nat)
    requires n >= 1 && x == q * n + r && r < n
    ensures x / n == q && x % n == r
  {
    var d := x / n - q;
    assert d * n == r - x % n;
    if d >= 1 {
      MulAtLeast(d, n);
      assert false;
    } else if d <= -1 {
      MulAtLeast(-d, n);
      assert false;
    }
  }

  lemma MulAtLeast(a: int, n: int)
    requires a >= 1 && n >= 1
    ensures a * n >= n
  {
  }

  lemma QuotientBound(x: nat, n: nat, i: nat)
    requires n >= 1 && i < x / n
    ensures i * n + n <= x
  {
    DivSplit(x, n);
    MulMono(i + 1, x / n, n);
    MulSucc(i, n);
  }

  lemma MulMono(a: nat, b: nat, n: nat)
    requires a <= b
    ensures a * n <= b * n
  {
  }

  lemma MulSucc(a: int, n: int)
    ensures (a + 1) * n == a * n + n
  {
  }

  /** Incrementing `t` moves `t / n` up by one exactly when `t + 1` is a multiple of `n`. */
  lemma DivStep(t: nat, n: nat)
    requires n >= 1
    ensures (t + 1) / n == t / n + (if (t + 1) % n == 0 then 1 else 0)
  {
    var q, r := t / n, t % n;
    if r + 1 < n {
      DivUnique(t + 1, n, q, r + 1);
    } else {
      DivUnique(t + 1, n, q + 1, 0);
    }
  }

  // ---------------------------------------------------------------------------
  // Round-robin assignment

  /** The documents sink `j` of `n` receives: those whose 0-based index is `j` mod `n`, in order. */
  function Share<D>(docs: seq<D>, n: nat, j: nat): seq<D>
    requires n >= 1
  {
    if docs == [] then []
    else
      var k := |docs| - 1;
      Share(docs[..k], n, j) + (if k % n == j then [docs[k]] else [])
  }

  /** The contents of all `n` sinks. */
  function Shares<D>(docs: seq<D>, n: nat): (ss: seq<seq<D>>)
    requires n >= 1
    ensures |ss| == n && forall j :: 0 <= j < n ==> ss[j] == Share(docs, n, j)
  {
    seq(n, j requires 0 <= j => Share(docs, n, j))
  }

  lemma CountStep(m: nat, n: nat, j: nat)
    requires j < n
    ensures (m + n - j) / n == (m + n - 1 - j) / n + (if m % n == j then 1 else 0)
  {
    DivStep(m + n - 1 - j, n);
    ShiftedMultiple(m, n, j);
  }

  /** `m + n - j` is a multiple of `n` exactly when `m` is `j` mod `n`. */
  lemma ShiftedMultiple(m: nat, n: nat, j: nat)
    requires j < n
    ensures (m + n - j) % n == 0 <==> m % n == j
  {
    var q, r := m / n, m % n;
    DivSplit(m, n);
    if r >= j {
      DivUnique(m + n - j, n, q + 1, r - j);
    } else {
      DivUnique(m + n - j, n, q, n - j + r);
    }
  }

  lemma DivSplit(m: nat, n: nat)
    requires n >= 1
    ensures m == (m / n) * n + m % n && (m / n + 1) * n == (m / n) * n + n
  {
  }

  lemma CountBefore(k: nat, n: nat)
    requires n >= 1
    ensures (k + n - 1 - k % n) / n == k / n
  {
    DivUnique(k + n - 1 - k % n, n, k / n, n - 1);
  }

  /** Sink `j` receives one document for every index below `|docs|` that is `j` mod `n`. */
  lemma {:induction false} ShareLength<D>(docs: seq<D>, n: nat, j: nat)
    requires j < n
    ensures |Share(docs, n, j)| == (|docs| + n - 1 - j) / n
  {
    if docs == [] {
      DivUnique(n - 1 - j, n, 0, n - 1 - j);
    } else {
      var m := |docs| - 1;
      ShareLength(docs[..m], n, j);
      CountStep(m, n, j);
    }
  }

  /** The `k`-th document (0-based) is the `k / n`-th entry of sink `k % n`. */
  lemma {:induction false} ShareAt<D>(docs: seq<D>, n: nat, k: nat)
    requires n >= 1 && k < |docs|
    ensures k / n < |Share(docs, n, k % n)| && Share(docs, n, k % n)[k / n] == docs[k]
  {
    var m := |docs| - 1;
    var init := docs[..m];
    if k < m {
      ShareAt(init, n, k);
    } else {
      var j := k % n;
      ShareLength(init, n, j);
      CountBefore(k, n);
      assert Share(docs, n, j) == Share(init, n, j) + [docs[k]];
    }
  }

  /** Each sink holds only documents of its residue class, in increasing input order. */
  lemma {:induction false} ShareOrdered<D>(docs: seq<D>, n: nat, j: nat, i: nat)
    requires j < n && i < |Share(docs, n, j)|
    ensures j + i * n < |docs| && Share(docs, n, j)[i] == docs[j + i * n]
  {
    ShareLength(docs, n, j);
    QuotientBound(|docs| + n - 1 - j, n, i);
    var k := j + i * n;
    DivUnique(k, n, i, j);
    ShareAt(docs, n, k);
  }

  function SumLengths<D>(ss: seq<seq<D>>): nat
  {
    if ss == [] then 0 else SumLengths(ss[..|ss| - 1]) + |ss[|ss| - 1]|
  }

  lemma {:induction false} SumLengthsUpdate<D>(ss: seq<seq<D>>, i: nat, s: seq<D>)
    requires i < |ss|
    ensures SumLengths(ss[i := s]) == SumLengths(ss) - |ss[i]| + |s|
  {
    var m := |ss| - 1;
    if i < m {
      SumLengthsUpdate(ss[..m], i, s);
      assert ss[i := s][..m] == ss[..m][i := s];
    } else {
      assert ss[i := s][..m] == ss[..m];
    }
  }

  /** Every document lands in exactly one sink: the sink lengths add up to the document count. */
  lemma {:induction false} SharesTotal<D>(docs: seq<D>, n: nat)
    requires n >= 1
    ensures SumLengths(Shares(docs, n)) == |docs|
  {
    if docs == [] {
      ZeroSum(Shares(docs, n));
    } else {
      var m := |docs| - 1;
      var before := Shares(docs[..m], n);
      SharesTotal(docs[..m], n);
      var after := before[m % n := before[m % n] + [docs[m]]];
      forall j | 0 <= j < n
        ensures Shares(docs, n)[j] == after[j]
      {
        assert docs[..m] == docs[..|docs| - 1];
      }
      assert Shares(docs, n) == after;
      SumLengthsUpdate(before, m % n, before[m % n] + [docs[m]]);
    }
  }

  lemma {:induction false} ZeroSum<D>(ss: seq<seq<D>>)
    requires forall j :: 0 <= j < |ss| ==> ss[j] == []
    ensures SumLengths(ss) == 0
  {
    if ss != [] {
      ZeroSum(ss[..|ss| - 1]);
    }
  }

  // ---------------------------------------------------------------------------
  // The operations a run attempts

  /** `flush_all` when nothing fails: every sink flushed once, in index order. */
  function FlushRound<D>(n: nat): (ops: seq<Op<D>>)
  {
    seq(n, j requires 0 <= j => Flush(j))
  }

  /**
    The operations for one decoded document: its write to sink `sink`, followed by a
    flush round when `count`, the number of documents written with it, is a multiple
    of `AUTO_FLUSH`.
   */
  function StepOps<D>(sink: nat, count: nat, doc: D, n: nat): seq<Op<D>>
  {
    [Write(sink, doc)] + (if count % AUTO_FLUSH == 0 then FlushRound(n) else [])
  }

  /** The operations of the main loop for the documents `docs`, the `k`-th going to sink `k % n`. */
  function Batches<D>(docs: seq<D>, n: nat): seq<Op<D>>
    requires n >= 1
  {
    if docs == [] then []
    else
      var k := |docs| - 1;
      Batches(docs[..k], n) + StepOps(k % n, k + 1, docs[k], n)
  }

  /** Where the `k`-th write stands in the trace of the main loop. */
  function Slot(k: nat, n: nat): nat
  {
    if k == 0 then 0
    else Slot(k - 1, n) + 1 + (if k % AUTO_FLUSH == 0 then n else 0)
  }

  /** The `k`-th write comes after `k` writes and `k / AUTO_FLUSH` flush rounds of `n` flushes. */
  lemma {:induction false} SlotClosedForm(k: nat, n: nat)
    ensures Slot(k, n) == k + (k / AUTO_FLUSH) * n
  {
    if k > 0 {
      SlotClosedForm(k - 1, n);
      DivStep(k - 1, AUTO_FLUSH);
      if k % AUTO_FLUSH == 0 {
        assert (k / AUTO_FLUSH) * n == ((k - 1) / AUTO_FLUSH) * n + n;
      }
    }
  }

  lemma {:induction false} SlotMonotone(a: nat, b: nat, n: nat)
    requires a <= b
    ensures Slot(a, n) <= Slot(b, n)
    decreases b - a
  {
    if a < b {
      SlotMonotone(a, b - 1, n);
    }
  }

  lemma {:induction false} BatchesLength<D>(docs: seq<D>, n: nat)
    requires n >= 1
    ensures |Batches(docs, n)| == Slot(|docs|, n)
  {
    if docs != [] {
      BatchesLength(docs[..|docs| - 1], n);
    }
  }

  /**
    The trace of the main loop, position by position: the `k`-th write sits at
    `Slot(k, n)` and goes to sink `k % n`, and what follows it up to the next write is
    a full flush round, in sink order, when `k + 1` is a multiple of `AUTO_FLUSH`, and
    nothing otherwise.
   */
  lemma {:induction false} BatchesAt<D>(docs: seq<D>, n: nat, k: nat)
    requires n >= 1 && k < |docs|
    ensures Slot(k + 1, n) <= |Batches(docs, n)|
    ensures Batches(docs, n)[Slot(k, n)] == Write(k % n, docs[k])
    ensures Slot(k + 1, n) - Slot(k, n) - 1 == if (k + 1) % AUTO_FLUSH == 0 then n else 0
    ensures forall p :: Slot(k, n) < p < Slot(k + 1, n) ==>
      Batches(docs, n)[p] == Flush(p - Slot(k, n) - 1)
  {
    var m := |docs| - 1;
    var init := docs[..m];
    BatchesLength(docs, n);
    BatchesLength(init, n);
    if k < m {
      BatchesAt(init, n, k);
      SlotMonotone(k + 1, m, n);
      assert init[k] == docs[k];
    }
  }

  /**
    Every operation a fault-free run attempts, in order: the main loop over the decoded
    documents, then, if the stream ended cleanly, the final `flush_all`. After a decode
    error nothing more is attempted.
   */
  function Schedule<D>(input: seq<DecodeResult<D>>, n: nat): seq<Op<D>>
    requires n >= 1
  {
    Batches(Documents(input), n) + (if Ending(input).Ok? then FlushRound(n) else [])
  }

  /** Writing the `w`-th document extends the sink `w % n` by that document and no other sink. */
  lemma ShareStep<D>(docs: seq<D>, n: nat, w: nat)
    requires n >= 1 && w < |docs|
    ensures forall j ::
      Share(docs[..w + 1], n, j) == Share(docs[..w], n, j) + (if w % n == j then [docs[w]] else [])
  {
    assert docs[..w + 1][..w] == docs[..w];
  }

  /** The operations for the first `m` documents are where the whole main loop's begin. */
  lemma {:induction false} BatchesPrefix<D>(docs: seq<D>, n: nat, m: nat)
    requires n >= 1 && m <= |docs|
    ensures |Batches(docs[..m], n)| <= |Batches(docs, n)|
    ensures Batches(docs[..m], n) == Batches(docs, n)[..|Batches(docs[..m], n)|]
    decreases |docs|
  {
    if m < |docs| {
      var init := docs[..|docs| - 1];
      BatchesPrefix(init, n, m);
      assert init[..m] == docs[..m];
    } else {
      assert docs[..m] == docs;
    }
  }

  /**
    Within the main loop's operations, the block for the `w`-th document follows
    directly on the blocks for the documents before it.
   */
  lemma StepInBatches<D>(docs: seq<D>, n: nat, w: nat)
    requires n >= 1 && w < |docs|
    ensures var done, block, all := Batches(docs[..w], n), StepOps(w % n, w + 1, docs[w], n), Batches(docs, n);
      Batches(docs[..w + 1], n) == done + block &&
      |done| + |block| <= |all| && all[..|done|] == done &&
      all[|done|..|done| + |block|] == block
  {
    var done, block, all := Batches(docs[..w], n), StepOps(w % n, w + 1, docs[w], n), Batches(docs, n);
    assert docs[..w + 1][..w] == docs[..w];
    BatchesPrefix(docs, n, w + 1);
    var big := done + block;
    assert big == all[..|big|];
    assert all[..|done|] == big[..|done|] == done;
    assert all[|done|..|big|] == big[|done|..] == block;
  }

  // ---------------------------------------------------------------------------
  // Stopping at the first failing operation

  /** No operation numbered `from` to `from + count - 1` fails. */
  predicate Clear(faults: set<nat>, from: nat, count: nat)
  {
    forall p :: from <= p < from + count ==> p !in faults
  }

  /**
    The operations actually attempted when `ops` are performed in order starting at
    trace position `start`, each `?`-checked: all of them if none fails, otherwise
    those up to and including the first one that fails.
   */
  function Attempt<D>(ops: seq<Op<D>>, faults: set<nat>, start: nat): seq<Op<D>>
  {
    if ops == [] then []
    else if start in faults then [ops[0]]
    else [ops[0]] + Attempt(ops[1..], faults, start + 1)
  }

  /**
    What is attempted is a prefix of the operations; every attempted operation but
    the last succeeds; and either all operations are attempted or the last one
    attempted is the first that fails.
   */
  lemma {:induction false} AttemptPrefix<D>(ops: seq<Op<D>>, faults: set<nat>, start: nat)
    ensures var done := Attempt(ops, faults, start);
      |done| <= |ops| && done == ops[..|done|] &&
      ((done == ops && Clear(faults, start, |ops|)) ||
       (|done| > 0 && Clear(faults, start, |done| - 1) && start + |done| - 1 in faults))
  {
    if ops != [] && start !in faults {
      AttemptPrefix(ops[1..], faults, start + 1);
      assert ops == [ops[0]] + ops[1..];
    }
  }

  /** When no operation fails, all are attempted. */
  lemma {:induction false} AttemptClear<D>(ops: seq<Op<D>>, faults: set<nat>, start: nat)
    requires Clear(faults, start, |ops|)
    ensures Attempt(ops, faults, start) == ops
  {
    if ops != [] {
      AttemptClear(ops[1..], faults, start + 1);
    }
  }

  /** Performing `a` and then `b`, when no operation of `a` fails: all of `a`, then `b` where `a` left off. */
  lemma {:induction false} AttemptPast<D>(a: seq<Op<D>>, b: seq<Op<D>>, faults: set<nat>, start: nat)
    requires Clear(faults, start, |a|)
    ensures Attempt(a + b, faults, start) == a + Attempt(b, faults, start + |a|)
  {
    if a != [] {
      var tail := a[1..];
      assert (a + b)[0] == a[0] && (a + b)[1..] == tail + b;
      assert start !in faults;
      AttemptPast(tail, b, faults, start + 1);
      calc {
        Attempt(a + b, faults, start);
        [a[0]] + Attempt(tail + b, faults, start + 1);
        [a[0]] + (tail + Attempt(b, faults, start + |a|));
        { assert a == [a[0]] + tail; }
        a + Attempt(b, faults, start + |a|);
      }
    } else {
      assert a + b == b;
    }
  }

  /** Performing `a` and then `b` stops inside `a` if some operation of `a` fails. */
  lemma {:induction false} AttemptStopsIn<D>(a: seq<Op<D>>, b: seq<Op<D>>, faults: set<nat>, start: nat)
    requires !Clear(faults, start, |a|)
    ensures Attempt(a + b, faults, start) == Attempt(a, faults, start)
  {
    var tail := a[1..];
    assert (a + b)[0] == a[0] && (a + b)[1..] == tail + b;
    if start !in faults {
      AttemptStopsIn(tail, b, faults, start + 1);
    }
  }

  /** The first failing operation, at offset `j`, is the last one attempted. */
  lemma {:induction false} AttemptStopsAt<D>(ops: seq<Op<D>>, faults: set<nat>, start: nat, j: nat)
    requires j < |ops| && Clear(faults, start, j) && start + j in faults
    ensures Attempt(ops, faults, start) == ops[..j + 1]
  {
    if j > 0 {
      AttemptStopsAt(ops[1..], faults, start + 1, j - 1);
      assert ops[..j + 1] == [ops[0]] + ops[1..][..j];
    }
  }

  /**
    If the operations before position `q` succeed and some operation of the block `block`
    that stands at `q` fails, the run stops inside that block.
   */
  lemma AttemptWithin<D>(ops: seq<Op<D>>, faults: set<nat>, q: nat, block: seq<Op<D>>)
    requires q + |block| <= |ops| && ops[q..q + |block|] == block
    requires Clear(faults, 0, q) && !Clear(faults, q, |block|)
    ensures Attempt(ops, faults, 0) == ops[..q] + Attempt(block, faults, q)
  {
    var pre, rest := ops[..q], ops[q + |block|..];
    assert ops[q..] == block + rest;
    assert ops == pre + (block + rest);
    assert |pre| == q;
    AttemptPast(pre, block + rest, faults, 0);
    assert Attempt(ops, faults, 0) == pre + Attempt(block + rest, faults, q);
    AttemptStopsIn(block, rest, faults, q);
    assert Attempt(block + rest, faults, q) == Attempt(block, faults, q);
  }

  lemma ModStep(w: nat, n: nat)
    requires n >= 1
    ensures (w % n + 1) % n == (w + 1) % n
  {
    DivStep(w, n);
    if w % n + 1 < n {
      DivUnique(w % n + 1, n, 0, w % n + 1);
    } else {
      DivUnique(w % n + 1, n, 1, 0);
    }
  }

  lemma ClearJoin(faults: set<nat>, a: nat, b: nat, c: nat)
    requires Clear(faults, a, b) && Clear(faults, a + b, c)
    ensures Clear(faults, a, b + c)
  {
  }

  /** The operations for one document stop after its write if the write fails. */
  lemma AttemptStep<D>(sink: nat, count: nat, doc: D, n: nat, faults: set<nat>, start: nat)
    ensures Attempt(StepOps(sink, count, doc, n), faults, start) ==
      [Write(sink, doc)] +
        if start in faults || count % AUTO_FLUSH != 0 then []
        else Attempt(FlushRound(n), faults, start + 1)
  {
  }

  lemma SeqAssoc<T>(a: seq<T>, b: seq<T>, c: seq<T>)
    ensures (a + b) + c == a + (b + c)
  {
  }

  // ---------------------------------------------------------------------------
  // Writes that took effect

  /** How many of the writes in `ops`, standing at trace positions `start` onwards, succeed. */
  function WritesDone<D>(ops: seq<Op<D>>, faults: set<nat>, start: nat): nat
  {
    if ops == [] then 0
    else
      var k := |ops| - 1;
      WritesDone(ops[..k], faults, start) + (if ops[k].Write? && start + k !in faults then 1 else 0)
  }

  /** The successful writes of two consecutive stretches of the trace add up. */
  lemma {:induction false} WritesDoneAppend<D>(a: seq<Op<D>>, b: seq<Op<D>>, faults: set<nat>, start: nat)
    ensures WritesDone(a + b, faults, start) == WritesDone(a, faults, start) + WritesDone(b, faults, start + |a|)
    decreases |b|
  {
    if b == [] {
      assert a + b == a;
    } else {
      var k := |b| - 1;
      WritesDoneAppend(a, b[..k], faults, start);
      assert (a + b)[..|a| + k] == a + b[..k];
    }
  }

  /** Flushes write no document. */
  lemma {:induction false} FlushesWriteNothing<D>(ops: seq<Op<D>>, faults: set<nat>, start: nat)
    requires forall i :: 0 <= i < |ops| ==> ops[i].Flush?
    ensures WritesDone(ops, faults, start) == 0
  {
    if ops != [] {
      FlushesWriteNothing(ops[..|ops| - 1], faults, start);
    }
  }

  /** A flush round, complete or cut short by a failure, writes no document. */
  lemma FlushRoundWritesNothing<D>(n: nat, faults: set<nat>, start: nat)
    ensures WritesDone(Attempt(FlushRound<D>(n), faults, start), faults, start) == 0
  {
    var done := Attempt(FlushRound<D>(n), faults, start);
    AttemptPrefix(FlushRound<D>(n), faults, start);
    forall i | 0 <= i < |done|
      ensures done[i].Flush?
    {
      assert done[i] == FlushRound<D>(n)[i];
    }
    FlushesWriteNothing(done, faults, start);
  }

  lemma SingleWrite<D>(sink: nat, doc: D, faults: set<nat>, start: nat)
    ensures WritesDone([Write(sink, doc)], faults, start) == if start in faults then 0 else 1
  {
    assert [Write(sink, doc)][..0] == [];
  }

  /** One document's operations write it exactly when its write succeeds, whatever becomes of the flushes. */
  lemma StepWrites<D>(sink: nat, count: nat, doc: D, n: nat, faults: set<nat>, start: nat)
    ensures WritesDone(Attempt(StepOps(sink, count, doc, n), faults, start), faults, start) ==
      if start in faults then 0 else 1
  {
    var head := [Write(sink, doc)];
    AttemptStep(sink, count, doc, n, faults, start);
    SingleWrite(sink, doc, faults, start);
    if start in faults || count % AUTO_FLUSH != 0 {
      assert Attempt(StepOps(sink, count, doc, n), faults, start) == head + [];
      WritesDoneAppend(head, [], faults, start);
    } else {
      var rest := Attempt(FlushRound<D>(n), faults, start + 1);
      assert Attempt(StepOps(sink, count, doc, n), faults, start) == head + rest;
      WritesDoneAppend(head, rest, faults, start);
      FlushRoundWritesNothing<D>(n, faults, start + 1);
    }
  }

  /** When none of its operations fails, the main loop writes every document. */
  lemma {:induction false} BatchesWrites<D>(docs: seq<D>, n: nat, faults: set<nat>)
    requires n >= 1 && Clear(faults, 0, |Batches(docs, n)|)
    ensures WritesDone(Batches(docs, n), faults, 0) == |docs|
  {
    if docs != [] {
      var k := |docs| - 1;
      var before := Batches(docs[..k], n);
      var block := StepOps(k % n, k + 1, docs[k], n);
      assert Batches(docs, n) == before + block;
      assert Clear(faults, 0, |before|);
      BatchesWrites(docs[..k], n, faults);
      WritesDoneAppend(before, block, faults, 0);
      AttemptClear(block, faults, |before|);
      StepWrites(k % n, k + 1, docs[k], n, faults, |before|);
    }
  }

  // ---------------------------------------------------------------------------
  // The main loop's trace, step by step

  /** The `w`-th document's operations, all successful, extend the trace of the first `w`. */
  lemma TraceStep<D>(docs: seq<D>, n: nat, w: nat, faults: set<nat>, log: seq<Op<D>>, log': seq<Op<D>>)
    requires n >= 1 && w < |docs|
    requires log == Batches(docs[..w], n) && Clear(faults, 0, |log|)
    requires Clear(faults, |log|, |StepOps(w % n, w + 1, docs[w], n)|)
    requires log' == log + Attempt(StepOps(w % n, w + 1, docs[w], n), faults, |log|)
    ensures log' == Batches(docs[..w + 1], n) && Clear(faults, 0, |log'|)
  {
    var block := StepOps(w % n, w + 1, docs[w], n);
    AttemptClear(block, faults, |log|);
    assert docs[..w + 1][..w] == docs[..w];
    ClearJoin(faults, 0, |log|, |block|);
  }

  /** A failing operation among the `w`-th document's ends the main loop's operations there. */
  lemma TraceStop<D>(docs: seq<D>, n: nat, w: nat, faults: set<nat>, log: seq<Op<D>>, log': seq<Op<D>>)
    requires n >= 1 && w < |docs|
    requires log == Batches(docs[..w], n) && Clear(faults, 0, |log|)
    requires !Clear(faults, |log|, |StepOps(w % n, w + 1, docs[w], n)|)
    requires log' == log + Attempt(StepOps(w % n, w + 1, docs[w], n), faults, |log|)
    ensures log' == Attempt(Batches(docs, n), faults, 0)
    ensures !Clear(faults, 0, |Batches(docs, n)|)
    ensures WritesDone(log', faults, 0) == w + (if |log| in faults then 0 else 1)
  {
    var block := StepOps(w % n, w + 1, docs[w], n);
    StepInBatches(docs, n, w);
    AttemptWithin(Batches(docs, n), faults, |log|, block);
    BatchesWrites(docs[..w], n, faults);
    BlockAfter(log, w % n, w + 1, docs[w], n, faults);
  }

  /** A run whose main loop stops at a failing operation never reaches the final flush round. */
  lemma StopBeforeFinal<D>(input: seq<DecodeResult<D>>, n: nat, faults: set<nat>)
    requires n >= 1 && !Clear(faults, 0, |Batches(Documents(input), n)|)
    ensures Attempt(Schedule(input, n), faults, 0) == Attempt(Batches(Documents(input), n), faults, 0)
    ensures !Clear(faults, 0, |Schedule(input, n)|)
  {
    var all := Batches(Documents(input), n);
    AttemptStopsIn(all, Schedule(input, n)[|all|..], faults, 0);
    assert Schedule(input, n) == all + Schedule(input, n)[|all|..];
  }

  /** A decode error after all documents ends the trace after the main loop, with no final flush. */
  lemma TraceDecodeError<D>(input: seq<DecodeResult<D>>, n: nat, faults: set<nat>, log: seq<Op<D>>)
    requires n >= 1 && Ending(input).Err?
    requires log == Batches(Documents(input), n) && Clear(faults, 0, |log|)
    ensures log == Schedule(input, n) == Attempt(Schedule(input, n), faults, 0)
    ensures Clear(faults, 0, |Schedule(input, n)|)
    ensures WritesDone(log, faults, 0) == |Documents(input)|
  {
    AttemptClear(Schedule(input, n), faults, 0);
    BatchesWrites(Documents(input), n, faults);
  }

  /** One document's block after any stretch of the trace adds one write, unless its write fails. */
  lemma BlockAfter<D>(ops: seq<Op<D>>, sink: nat, count: nat, doc: D, n: nat, faults: set<nat>)
    ensures WritesDone(ops + Attempt(StepOps(sink, count, doc, n), faults, |ops|), faults, 0) ==
      WritesDone(ops, faults, 0) + (if |ops| in faults then 0 else 1)
  {
    var tail := Attempt(StepOps(sink, count, doc, n), faults, |ops|);
    StepWrites(sink, count, doc, n, faults, |ops|);
    WritesDoneAppend(ops, tail, faults, 0);
  }

  /** A flush round after any stretch of the trace adds no write to it. */
  lemma FlushRoundAfter<D>(ops: seq<Op<D>>, n: nat, faults: set<nat>)
    ensures WritesDone(ops + Attempt(FlushRound<D>(n), faults, |ops|), faults, 0) == WritesDone(ops, faults, 0)
  {
    var tail := Attempt(FlushRound<D>(n), faults, |ops|);
    FlushRoundWritesNothing<D>(n, faults, |ops|);
    WritesDoneAppend(ops, tail, faults, 0);
  }

  /** The final flush round adds no write to those of the main loop. */
  lemma FinalRoundWrites<D>(docs: seq<D>, n: nat, faults: set<nat>, log: seq<Op<D>>, log': seq<Op<D>>)
    requires n >= 1 && log == Batches(docs, n) && Clear(faults, 0, |log|)
    requires log' == log + Attempt(FlushRound(n), faults, |log|)
    ensures WritesDone(log', faults, 0) == |docs|
  {
    BatchesWrites(docs, n, faults);
    FlushRoundAfter(log, n, faults);
  }

  /** After a clean end, the final flush round completes the trace. */
  lemma TraceFinal<D>(input: seq<DecodeResult<D>>, n: nat, faults: set<nat>,
                      log: seq<Op<D>>, log': seq<Op<D>>)
    requires n >= 1 && Ending(input).Ok?
    requires log == Batches(Documents(input), n) && Clear(faults, 0, |log|)
    requires log' == log + Attempt(FlushRound(n), faults, |log|)
    ensures log' == Attempt(Schedule(input, n), faults, 0)
    ensures Clear(faults, 0, |Schedule(input, n)|) <==> Clear(faults, |log|, n)
    ensures WritesDone(log', faults, 0) == |Documents(input)|
  {
    FinalRoundWrites(Documents(input), n, faults, log, log');
    var sched := Schedule(input, n);
    if Clear(faults, |log|, n) {
      AttemptClear(FlushRound<D>(n), faults, |log|);
      ClearJoin(faults, 0, |log|, n);
      AttemptClear(sched, faults, 0);
    } else {
      AttemptWithin(sched, faults, |log|, FlushRound(n));
    }
  }

  /** Appending the `w`-th document to sink `w % n` turns the shares of `w` documents into those of `w + 1`. */
  lemma SharesStep<D>(docs: seq<D>, n: nat, w: nat, ss: seq<seq<D>>)
    requires n >= 1 && w < |docs| && ss == Shares(docs[..w], n)
    ensures ss[w % n := ss[w % n] + [docs[w]]] == Shares(docs[..w + 1], n)
  {
    ShareStep(docs, n, w);
    var after := Shares(docs[..w + 1], n);
    forall j | 0 <= j < n
      ensures ss[w % n := ss[w % n] + [docs[w]]][j] == after[j]
    {
      assert after[j] == Share(docs[..w + 1], n, j);
    }
  }
}
