/**
 * The transactions workload's generation side: random byte strings, a key
 * space of distinct keys, transactions that touch each key at most once, and
 * the split of the transactions between threads. Every random draw is a
 * parameter: a byte-string draw is a finished `bytes_factory` result, and a
 * sequence of draws ending early stands for a random source the loop would
 * have kept on asking.
 */
module TransactionsWorkload {
  import opened Prelude
  import opened Transactions

  // ---------------------------------------------------------------------------
  // Byte strings and the key space
  // ---------------------------------------------------------------------------

  /**
   * `bytes_factory`: `scaledLength` is `max_byte_length * beta` truncated
   * (the Beta draw is at most 1, so it is at most `max_byte_length`), raised
   * to 1, filled with random bytes. The conversion of `max_byte_length` to
   * `u32` panics (`None`) on larger values.
   */
  function BytesFactory(maxByteLength: nat, scaledLength: nat, byteAt: nat -> Byte): (v: Option<seq<Byte>>)
    ensures v.None? <==> maxByteLength >= 0x1_0000_0000
    ensures v.Some? ==> 1 <= |v.value| && (scaledLength <= maxByteLength && 1 <= maxByteLength ==> |v.value| <= maxByteLength)
    ensures v.Some? ==> forall i | 0 <= i < |v.value| :: v.value[i] == byteAt(i)
  {
    if maxByteLength >= 0x1_0000_0000 then None
    else
      var length := if scaledLength > 1 then scaledLength else 1;
      Some(seq(length, i requires 0 <= i => byteAt(i)))
  }

  /** The distinct byte strings among the first `m` draws. */
  function Drawn(draws: seq<seq<Byte>>, m: nat): set<seq<Byte>>
    requires m <= |draws|
  {
    set i | 0 <= i < m :: draws[i]
  }

  lemma DrawnStep(draws: seq<seq<Byte>>, m: nat)
    requires m < |draws|
    ensures Drawn(draws, m + 1) == Drawn(draws, m) + {draws[m]}
  {
    assert draws[m] in Drawn(draws, m + 1);
  }

  /**
   * `build_key_space`: draws until `cardinality` distinct keys are known and
   * returns them in ascending order; `None` when the draws run out first.
   */
  method BuildKeySpace(draws: seq<seq<Byte>>, cardinality: nat) returns (keySpace: Option<seq<seq<Byte>>>)
    ensures keySpace.None? <==> |Drawn(draws, |draws|)| < cardinality
    ensures keySpace.Some? ==>
      && |keySpace.value| == cardinality
      && LexSorted(keySpace.value)
      && exists m | 0 <= m <= |draws| ::
           (forall k :: k in keySpace.value <==> k in Drawn(draws, m))
           && (m > 0 ==> |Drawn(draws, m - 1)| < cardinality)
  {
    var keys: set<seq<Byte>> := {};
    var i := 0;
    while |keys| < cardinality
      invariant 0 <= i <= |draws|
      invariant keys == Drawn(draws, i)
      invariant i > 0 ==> |Drawn(draws, i - 1)| < cardinality
      invariant |keys| <= cardinality
      decreases |draws| - i
    {
      if i == |draws| {
        return None;
      }
      DrawnStep(draws, i);
      keys := keys + {draws[i]};
      i := i + 1;
    }
    DrawnMonotone(draws, i);
    var sorted := SortedElements(keys);
    return Some(sorted);
  }

  lemma {:induction false} DrawnMonotone(draws: seq<seq<Byte>>, m: nat)
    requires m <= |draws|
    ensures |Drawn(draws, m)| <= |Drawn(draws, |draws|)|
  {
    var a, b := Drawn(draws, m), Drawn(draws, |draws|);
    assert a <= b;
    assert b == a + (b - a) && a * (b - a) == {};
  }

  // ---------------------------------------------------------------------------
  // One transaction
  // ---------------------------------------------------------------------------

  /**
   * One pass of the generation loop's draws: a key index from `0..|key_space|`,
   * whether the op writes, whether a write deletes, and the value a write
   * that inserts would use (a `bytes_factory` result).
   */
  datatype Choice = Choice(keyIdx: nat, write: bool, delete: bool, value: seq<Byte>)

  /** The operation a fresh draw produces. */
  function OpFor(keySpace: seq<seq<Byte>>, c: Choice): (op: Operation)
    requires c.keyIdx < |keySpace|
    ensures Key(op) == keySpace[c.keyIdx]
    ensures op.Get? <==> !c.write
    ensures op.Remove? <==> c.write && c.delete
    ensures op.Insert? <==> c.write && !c.delete
    ensures op.Insert? ==> op.value == c.value
  {
    var key := keySpace[c.keyIdx];
    if c.write then (if c.delete then Remove(key) else Insert(key, c.value)) else Get(key)
  }

  predicate ChoicesInRange(keySpace: seq<seq<Byte>>, choices: seq<Choice>)
  {
    forall k | 0 <= k < |choices| :: choices[k].keyIdx < |keySpace|
  }

  /** At most `ops_per_tx` operations, and never more than there are keys. */
  function Bound(keySpace: seq<seq<Byte>>, opsPerTx: nat): nat
  {
    if opsPerTx < |keySpace| then opsPerTx else |keySpace|
  }

  /**
   * The operations and the used key indices after the draws `choices`: a
   * draw is skipped once the transaction is full or when its key index was
   * already used (`keys_used.insert` returned false).
   */
  function Fill(keySpace: seq<seq<Byte>>, bound: nat, choices: seq<Choice>): (seq<Operation>, seq<nat>)
    requires ChoicesInRange(keySpace, choices)
  {
    if choices == [] then ([], [])
    else
      var prev := Fill(keySpace, bound, choices[..|choices| - 1]);
      var c := choices[|choices| - 1];
      if |prev.0| >= bound || c.keyIdx in prev.1 then prev
      else (prev.0 + [OpFor(keySpace, c)], prev.1 + [c.keyIdx])
  }

  /**
   * The generated operations: at most `bound` of them, each on the key at its
   * own index, no index twice, and each one what some draw asked for.
   */
  lemma {:induction false} FillShape(keySpace: seq<seq<Byte>>, bound: nat, choices: seq<Choice>)
    requires ChoicesInRange(keySpace, choices)
    ensures var (ops, idxs) := Fill(keySpace, bound, choices);
      && |ops| == |idxs| <= bound
      && (forall j | 0 <= j < |idxs| :: idxs[j] < |keySpace| && Key(ops[j]) == keySpace[idxs[j]])
      && (forall j1, j2 | 0 <= j1 < j2 < |idxs| :: idxs[j1] != idxs[j2])
      && (forall j | 0 <= j < |ops| :: exists k | 0 <= k < |choices| ::
            choices[k].keyIdx == idxs[j] && ops[j] == OpFor(keySpace, choices[k]))
    decreases |choices|
  {
    if choices != [] {
      var init := choices[..|choices| - 1];
      assert ChoicesInRange(keySpace, init) by {
        forall k | 0 <= k < |init| ensures init[k].keyIdx < |keySpace| {
          assert init[k] == choices[k];
        }
      }
      FillShape(keySpace, bound, init);
      var (ops0, idxs0) := Fill(keySpace, bound, init);
      var (ops, idxs) := Fill(keySpace, bound, choices);
      forall j | 0 <= j < |ops|
        ensures exists k | 0 <= k < |choices| :: choices[k].keyIdx == idxs[j] && ops[j] == OpFor(keySpace, choices[k])
      {
        if j < |ops0| {
          var k :| 0 <= k < |init| && init[k].keyIdx == idxs0[j] && ops0[j] == OpFor(keySpace, init[k]);
          assert init[k] == choices[k];
          assert ops[j] == ops0[j] && idxs[j] == idxs0[j];
        } else {
          assert ops[j] == OpFor(keySpace, choices[|choices| - 1]);
        }
      }
    }
  }

  /** Once full, further draws change nothing. */
  lemma {:induction false} FillSaturated(keySpace: seq<seq<Byte>>, bound: nat, choices: seq<Choice>, i: nat)
    requires ChoicesInRange(keySpace, choices) && i <= |choices|
    requires ChoicesInRange(keySpace, choices[..i])
    requires |Fill(keySpace, bound, choices[..i]).0| >= bound
    ensures Fill(keySpace, bound, choices) == Fill(keySpace, bound, choices[..i])
    decreases |choices|
  {
    if i < |choices| {
      var init := choices[..|choices| - 1];
      assert init[..i] == choices[..i];
      FillSaturated(keySpace, bound, init, i);
    } else {
      assert choices[..i] == choices;
    }
  }

  /**
   * The generation loop for one transaction: `None` when the draws run out
   * before it holds `min(ops_per_tx, |key_space|)` operations.
   */
  method GenerateTransaction(keySpace: seq<seq<Byte>>, opsPerTx: nat, choices: seq<Choice>)
    returns (spec: Option<TransactionSpec>)
    requires ChoicesInRange(keySpace, choices)
    ensures spec.Some? <==> |Fill(keySpace, Bound(keySpace, opsPerTx), choices).0| == Bound(keySpace, opsPerTx)
    ensures spec.Some? ==> spec.value.ops == Fill(keySpace, Bound(keySpace, opsPerTx), choices).0
  {
    ghost var bound := Bound(keySpace, opsPerTx);
    var ops: seq<Operation> := [];
    var keysUsed: seq<nat> := [];
    var i := 0;
    while |ops| < opsPerTx && |ops| < |keySpace|
      invariant 0 <= i <= |choices|
      invariant ChoicesInRange(keySpace, choices[..i])
      invariant (ops, keysUsed) == Fill(keySpace, bound, choices[..i])
      invariant |ops| <= bound
      decreases |choices| - i
    {
      if i == |choices| {
        assert choices[..i] == choices;
        return None;
      }
      assert choices[..i + 1][..i] == choices[..i];
      var c := choices[i];
      i := i + 1;
      if c.keyIdx in keysUsed {
        continue;
      }
      keysUsed := keysUsed + [c.keyIdx];
      ops := ops + [OpFor(keySpace, c)];
    }
    FillSaturated(keySpace, bound, choices, i);
    return Some(TransactionSpec(ops));
  }

  /**
   * With a key space of distinct keys, a generated transaction touches each
   * key at most once, so it never reads and writes the same key.
   */
  lemma GeneratedKeysDistinct(keySpace: seq<seq<Byte>>, opsPerTx: nat, choices: seq<Choice>)
    requires ChoicesInRange(keySpace, choices)
    requires LexSorted(keySpace)
    ensures var ops := Fill(keySpace, Bound(keySpace, opsPerTx), choices).0;
      |ops| <= opsPerTx && |ops| <= |keySpace| &&
      forall j1, j2 | 0 <= j1 < j2 < |ops| :: Key(ops[j1]) != Key(ops[j2])
  {
    FillShape(keySpace, Bound(keySpace, opsPerTx), choices);
    var (ops, idxs) := Fill(keySpace, Bound(keySpace, opsPerTx), choices);
    forall j1, j2 | 0 <= j1 < j2 < |ops|
      ensures Key(ops[j1]) != Key(ops[j2])
    {
      var a, b := idxs[j1], idxs[j2];
      if a < b {
        assert LexLess(keySpace[a], keySpace[b]);
        LexLessIrreflexive(keySpace[a]);
      } else {
        assert LexLess(keySpace[b], keySpace[a]);
        LexLessIrreflexive(keySpace[b]);
      }
    }
  }

  /**
   * `transactions.resize_with(transaction_count, ..)`: one transaction per
   * draw sequence, in order; `None` when a draw sequence runs out.
   */
  method GenerateTransactions(keySpace: seq<seq<Byte>>, opsPerTx: nat, transactionCount: nat, draws: seq<seq<Choice>>)
    returns (specs: Option<seq<TransactionSpec>>)
    requires forall t | 0 <= t < |draws| :: ChoicesInRange(keySpace, draws[t])
    ensures specs.Some? ==>
      && |specs.value| == transactionCount <= |draws|
      && forall t | 0 <= t < transactionCount ::
           specs.value[t].ops == Fill(keySpace, Bound(keySpace, opsPerTx), draws[t]).0
           && |specs.value[t].ops| == Bound(keySpace, opsPerTx)
    ensures specs.None? ==>
      || transactionCount > |draws|
      || exists t | 0 <= t < transactionCount ::
           |Fill(keySpace, Bound(keySpace, opsPerTx), draws[t]).0| < Bound(keySpace, opsPerTx)
  {
    var out: seq<TransactionSpec> := [];
    var t := 0;
    while t < transactionCount
      invariant 0 <= t <= transactionCount
      invariant t <= |draws|
      invariant |out| == t
      invariant forall u | 0 <= u < t ::
        out[u].ops == Fill(keySpace, Bound(keySpace, opsPerTx), draws[u]).0
        && |out[u].ops| == Bound(keySpace, opsPerTx)
    {
      if t == |draws| {
        return None;
      }
      var spec := GenerateTransaction(keySpace, opsPerTx, draws[t]);
      if spec.None? {
        FillShape(keySpace, Bound(keySpace, opsPerTx), draws[t]);
        return None;
      }
      out := out + [spec.value];
      t := t + 1;
    }
    return Some(out);
  }

  // ---------------------------------------------------------------------------
  // Splitting the work between threads
  // ---------------------------------------------------------------------------

  /** `chunk_size`: ceiling division; `None` where `usize` division by zero threads panics. */
  function ChunkSize(transactionCount: nat, threadCount: nat): (c: Option<nat>)
    ensures c.None? <==> threadCount == 0
    ensures c.Some? ==> c.value * threadCount >= transactionCount
    ensures c.Some? && c.value > 0 ==> (c.value - 1) * threadCount < transactionCount
  {
    if threadCount == 0 then None
    else Some(transactionCount / threadCount + if transactionCount % threadCount > 0 then 1 else 0)
  }

  function Min(a: nat, b: nat): nat { if a < b then a else b }

  /** The index range of thread `t`, `min(t·c, n)..min((t+1)·c, n)`. */
  function ThreadRange(t: nat, chunk: nat, n: nat): (r: (nat, nat))
    ensures r.0 <= r.1 <= n
  {
    (Min(t * chunk, n), Min((t + 1) * chunk, n))
  }

  /** The ranges of two threads do not overlap, the earlier thread's lying below. */
  lemma RangesDisjoint(t1: nat, t2: nat, chunk: nat, n: nat)
    requires t1 < t2
    ensures ThreadRange(t1, chunk, n).1 <= ThreadRange(t2, chunk, n).0
  {
    assert (t1 + 1) * chunk <= t2 * chunk by {
      MulMonotone(t1 + 1, t2, chunk);
    }
  }

  lemma MulMonotone(a: nat, b: nat, c: nat)
    requires a <= b
    ensures a * c <= b * c
  {
  }

  /** Every transaction index below `n` belongs to the range of some thread below `thread_count`. */
  lemma RangesCover(transactionCount: nat, threadCount: nat, x: nat)
    requires threadCount > 0 && x < transactionCount
    ensures var chunk := ChunkSize(transactionCount, threadCount).value;
      exists t | 0 <= t < threadCount :: ThreadRange(t, chunk, transactionCount).0 <= x < ThreadRange(t, chunk, transactionCount).1
  {
    var chunk := ChunkSize(transactionCount, threadCount).value;
    assert chunk > 0;
    var t := x / chunk;
    assert t * chunk <= x < (t + 1) * chunk;
    if t >= threadCount {
      MulMonotone(threadCount, t, chunk);
      assert false;
    }
    assert ThreadRange(t, chunk, transactionCount).0 <= x < ThreadRange(t, chunk, transactionCount).1;
  }

  // ---------------------------------------------------------------------------
  // The generation part of main
  // ---------------------------------------------------------------------------

  /**
   * From the parsed arguments to the transaction specs: `max_byte_length == 0`
   * exits with status 1 (`None`), as does a draw sequence that runs out.
   */
  method Generate(
    transactionCount: nat, opsPerTx: nat, cardinality: nat, maxByteLength: nat,
    keyDraws: seq<seq<Byte>>, txDraws: seq<seq<Choice>>)
    returns (result: Option<(seq<seq<Byte>>, seq<TransactionSpec>)>)
    requires forall t | 0 <= t < |txDraws| :: forall k | 0 <= k < |txDraws[t]| :: txDraws[t][k].keyIdx < cardinality
    ensures maxByteLength == 0 ==> result.None?
    ensures result.Some? ==>
      var (keySpace, specs) := result.value;
      && |keySpace| == cardinality && LexSorted(keySpace)
      && |specs| == transactionCount
      && forall t | 0 <= t < |specs| ::
           |specs[t].ops| == Bound(keySpace, opsPerTx)
           && (forall j1, j2 | 0 <= j1 < j2 < |specs[t].ops| :: Key(specs[t].ops[j1]) != Key(specs[t].ops[j2]))
  {
    if maxByteLength == 0 {
      return None;
    }
    var keySpace := BuildKeySpace(keyDraws, cardinality);
    if keySpace.None? {
      return None;
    }
    var keys := keySpace.value;
    assert forall t | 0 <= t < |txDraws| :: ChoicesInRange(keys, txDraws[t]);
    var specs := GenerateTransactions(keys, opsPerTx, transactionCount, txDraws);
    if specs.None? {
      return None;
    }
    forall t | 0 <= t < transactionCount
      ensures forall j1, j2 | 0 <= j1 < j2 < |specs.value[t].ops| :: Key(specs.value[t].ops[j1]) != Key(specs.value[t].ops[j2])
    {
      GeneratedKeysDistinct(keys, opsPerTx, txDraws[t]);
    }
    return Some((keys, specs.value));
  }
}
