/**
 * The batches case. Each batch either removes the keys `0..BATCH_SIZE` or
 * writes all of them with values starting with the same round number, and is
 * applied atomically; a recovered tree must therefore hold either nothing or
 * all the keys with one common round, which `verify` reads off the tree's
 * first entry. A tree is a map from keys to values; its first entry is the
 * one with the least key in the lexicographic order.
 */
module Batches {
  import opened Prelude
  import opened CommonUtils

  const BATCH_SIZE: nat := 8
  const DEFAULT_BATCH_COUNT: nat := 10

  /** The padding of each inserted value is drawn from `0..SEGMENT_SIZE / 3`. */
  const PADDING_LIMIT: nat := SEGMENT_SIZE / 3

  /** The key, in its own tree, under which the workload stores its batch counter. */
  const BATCH_COUNTER_KEY: seq<Byte> := Ascii("batch_counter")

  type Tree = map<seq<Byte>, seq<Byte>>

  /** The keys every batch writes: `u32_to_vec(k)` for `k` in `0..BATCH_SIZE`. */
  function BatchKeys(): set<seq<Byte>>
  {
    set k | 0 <= k < BATCH_SIZE :: U32ToVec(k)
  }

  /** The batch keys below `n`. */
  function KeysBelow(n: nat): set<seq<Byte>>
  {
    set k | 0 <= k < n && k < BATCH_SIZE :: U32ToVec(k)
  }

  // ---------------------------------------------------------------------------
  // verify
  // ---------------------------------------------------------------------------

  /** The value of the tree's first entry, the one `tree.iter().next()` yields. */
  ghost function FirstValue(tree: Tree): (v: seq<Byte>)
    requires tree != map[]
    ensures exists k :: IsLexMin(k, tree.Keys) && tree[k] == v
  {
    LexMinExists(tree.Keys);
    var k :| IsLexMin(k, tree.Keys);
    tree[k]
  }

  lemma FirstValueAt(tree: Tree, k: seq<Byte>)
    requires IsLexMin(k, tree.Keys)
    ensures FirstValue(tree) == tree[k]
  {
    var k' :| IsLexMin(k', tree.Keys) && tree[k'] == FirstValue(tree);
    LexMinUnique(k, k', tree.Keys);
  }

  /** Every batch key is present and its value starts with the four bytes of `u`. */
  predicate BatchHolds(tree: Tree, u: U32)
  {
    forall k | 0 <= k < BATCH_SIZE :: U32ToVec(k) in tree && SliceToU32(tree[U32ToVec(k)]) == Some(u)
  }

  /**
   * `verify`'s result: `Some(0)` for an empty tree, otherwise the round the
   * first entry's value starts with if every batch key holds it, and `None`
   * where the source panics (a value shorter than four bytes, a missing key,
   * a failed `assert_eq`).
   */
  ghost function VerifyResult(tree: Tree): (r: Option<U32>)
    ensures tree == map[] ==> r == Some(0)
  {
    if tree == map[] then Some(0)
    else
      match SliceToU32(FirstValue(tree))
      case None => None
      case Some(first) => if BatchHolds(tree, first) then Some(first) else None
  }

  /** `verify`: the first entry's round, then a lookup of each batch key in turn. */
  method Verify(tree: Tree) returns (r: Option<U32>)
    ensures r == VerifyResult(tree)
  {
    if tree == map[] {
      return Some(0);
    }
    LexMinExists(tree.Keys);
    var k :| IsLexMin(k, tree.Keys);
    FirstValueAt(tree, k);
    var firstValue := SliceToU32(tree[k]);
    if firstValue.None? {
      return None;
    }
    var key := 0;
    while key < BATCH_SIZE
      invariant 0 <= key <= BATCH_SIZE
      invariant forall j | 0 <= j < key :: U32ToVec(j) in tree && SliceToU32(tree[U32ToVec(j)]) == firstValue
    {
      var kb := U32ToVec(key);
      if kb !in tree {
        return None;
      }
      var value := SliceToU32(tree[kb]);
      if value != firstValue {
        return None;
      }
      key := key + 1;
    }
    return firstValue;
  }

  /**
   * What an accepting `verify` means: a non-empty tree holds every batch key,
   * and the result is the round that the first entry and every batch key's
   * value start with.
   */
  lemma VerifyMeaning(tree: Tree)
    requires tree != map[] && VerifyResult(tree).Some?
    ensures |FirstValue(tree)| >= 4 && FirstValue(tree)[..4] == U32ToVec(VerifyResult(tree).value)
    ensures BatchKeys() <= tree.Keys
    ensures forall k | 0 <= k < BATCH_SIZE ::
      |tree[U32ToVec(k)]| >= 4 && tree[U32ToVec(k)][..4] == U32ToVec(VerifyResult(tree).value)
  {
    var u := VerifyResult(tree).value;
    forall key | key in BatchKeys() ensures key in tree {
      var k :| 0 <= k < BATCH_SIZE && key == U32ToVec(k);
    }
  }

  /** `verify` reads only the first entry and the batch keys. */
  lemma VerifyReadsOnly(t1: Tree, t2: Tree)
    requires t1 != map[] && t2 != map[] && FirstValue(t1) == FirstValue(t2)
    requires forall key | key in BatchKeys() :: (key in t1 <==> key in t2) && (key in t1 ==> t1[key] == t2[key])
    ensures VerifyResult(t1) == VerifyResult(t2)
  {
    forall k | 0 <= k < BATCH_SIZE
      ensures (U32ToVec(k) in t1 <==> U32ToVec(k) in t2) && (U32ToVec(k) in t1 ==> t1[U32ToVec(k)] == t2[U32ToVec(k)])
    {
      assert U32ToVec(k) in BatchKeys();
    }
  }

  /** The batch keys, ascending: a small number's four big-endian bytes are three zeros and itself. */
  lemma SmallU32ToVec(k: nat)
    requires k < 0x100
    ensures U32ToVec(k) == [0, 0, 0, k]
  {
  }

  lemma LexLessLastByte(p: seq<Byte>, x: Byte, y: Byte)
    requires x < y
    ensures LexLess(p + [x], p + [y])
    decreases |p|
  {
    if p != [] {
      assert (p + [x])[1..] == p[1..] + [x] && (p + [y])[1..] == p[1..] + [y];
      LexLessLastByte(p[1..], x, y);
    }
  }

  /** Batch keys sort as their numbers do. */
  lemma SmallKeysOrdered(a: nat, b: nat)
    requires a < b < 0x100
    ensures LexLess(U32ToVec(a), U32ToVec(b))
  {
    SmallU32ToVec(a);
    SmallU32ToVec(b);
    LexLessLastByte([0, 0, 0], a, b);
    assert [0, 0, 0] + [a] == U32ToVec(a) && [0, 0, 0] + [b] == U32ToVec(b);
  }

  /** Key 0 is the least batch key. */
  lemma KeyZeroFirst(tree: Tree)
    requires tree.Keys == BatchKeys()
    ensures IsLexMin(U32ToVec(0), tree.Keys)
  {
    assert U32ToVec(0) in BatchKeys();
    forall key | key in tree.Keys ensures LexLessEq(U32ToVec(0), key) {
      var k :| 0 <= k < BATCH_SIZE && key == U32ToVec(k);
      if k > 0 {
        SmallKeysOrdered(0, k);
      }
    }
  }

  /** A tree holding exactly the batch keys, all with round `u`. */
  predicate Uniform(tree: Tree, u: U32)
  {
    tree.Keys == BatchKeys() && BatchHolds(tree, u)
  }

  /** The trees a run of the workload leaves: empty, or a whole batch of one round. */
  predicate Consistent(tree: Tree)
  {
    tree == map[] || exists u: U32 :: Uniform(tree, u)
  }

  /** `verify` accepts a uniform tree with its round. */
  lemma UniformAccepted(tree: Tree, u: U32)
    requires Uniform(tree, u)
    ensures VerifyResult(tree) == Some(u)
  {
    KeyZeroFirst(tree);
    FirstValueAt(tree, U32ToVec(0));
    assert U32ToVec(0) in BatchKeys();
  }

  /** So a tree left by the workload is accepted; among trees holding only batch keys, exactly those are. */
  lemma ConsistentIffAccepted(tree: Tree)
    requires tree.Keys <= BatchKeys()
    ensures Consistent(tree) <==> VerifyResult(tree).Some?
  {
    if Consistent(tree) && tree != map[] {
      var u: U32 :| Uniform(tree, u);
      UniformAccepted(tree, u);
    }
    if VerifyResult(tree).Some? && tree != map[] {
      VerifyMeaning(tree);
      assert Uniform(tree, VerifyResult(tree).value);
    }
  }

  // ---------------------------------------------------------------------------
  // do_batch
  // ---------------------------------------------------------------------------

  /** A write of a `sled::Batch`. */
  datatype BatchOp = Remove(key: seq<Byte>) | Insert(key: seq<Byte>, value: seq<Byte>)

  /** The value written for round `i` with `padding` zero bytes after it. */
  function PaddedValue(i: U32, padding: nat): seq<Byte>
  {
    U32ToVec(i) + seq(padding, _ => 0)
  }

  /** One padding draw per batch key, each from `0..PADDING_LIMIT`. */
  predicate PaddingDraws(padding: seq<nat>)
  {
    |padding| == BATCH_SIZE && forall k | 0 <= k < BATCH_SIZE :: padding[k] < PADDING_LIMIT
  }

  /**
   * The batch `do_batch(i)` builds: when `remove` (the `gen_bool(0.1)` draw)
   * holds, a removal of every batch key, otherwise an insert of every batch key
   * with round `i` and that key's padding.
   */
  predicate BatchFor(i: U32, remove: bool, padding: seq<nat>, batch: seq<BatchOp>)
    requires PaddingDraws(padding)
  {
    && |batch| == BATCH_SIZE
    && forall k | 0 <= k < BATCH_SIZE ::
         batch[k] == if remove then Remove(U32ToVec(k)) else Insert(U32ToVec(k), PaddedValue(i, padding[k]))
  }

  /** The one batch `BatchFor` describes (`BatchOfFor`, `BatchForUnique`). */
  function BatchOf(i: U32, remove: bool, padding: seq<nat>): seq<BatchOp>
    requires PaddingDraws(padding)
  {
    BatchUpTo(i, remove, padding, BATCH_SIZE)
  }

  lemma BatchOfFor(i: U32, remove: bool, padding: seq<nat>)
    requires PaddingDraws(padding)
    ensures BatchFor(i, remove, padding, BatchOf(i, remove, padding))
  {
  }

  /** The first `n` writes of that batch. */
  function BatchUpTo(i: U32, remove: bool, padding: seq<nat>, n: nat): (batch: seq<BatchOp>)
    requires PaddingDraws(padding) && n <= BATCH_SIZE
    ensures |batch| == n
    ensures forall k | 0 <= k < n ::
      batch[k] == if remove then Remove(U32ToVec(k)) else Insert(U32ToVec(k), PaddedValue(i, padding[k]))
  {
    if n == 0 then []
    else
      BatchUpTo(i, remove, padding, n - 1)
        + [if remove then Remove(U32ToVec(n - 1)) else Insert(U32ToVec(n - 1), PaddedValue(i, padding[n - 1]))]
  }

  /** `BatchFor` fixes the batch: it is `BatchOf` of the round and the draws. */
  lemma BatchForUnique(i: U32, remove: bool, padding: seq<nat>, batch: seq<BatchOp>)
    requires PaddingDraws(padding) && BatchFor(i, remove, padding, batch)
    ensures batch == BatchOf(i, remove, padding)
  {
    var b := BatchOf(i, remove, padding);
    BatchOfFor(i, remove, padding);
    assert forall k | 0 <= k < BATCH_SIZE :: batch[k] == b[k];
  }

  /** `do_batch`, up to `apply_batch`: the loop filling the batch. */
  method DoBatch(i: U32, remove: bool, padding: seq<nat>) returns (batch: seq<BatchOp>)
    requires PaddingDraws(padding)
    ensures BatchFor(i, remove, padding, batch)
    ensures forall k | 0 <= k < BATCH_SIZE :: batch[k].Insert? ==> 4 <= |batch[k].value| < 4 + PADDING_LIMIT
  {
    batch := [];
    var key := 0;
    if remove {
      while key < BATCH_SIZE
        invariant 0 <= key <= BATCH_SIZE && |batch| == key
        invariant forall k | 0 <= k < key :: batch[k] == Remove(U32ToVec(k))
      {
        batch := batch + [Remove(U32ToVec(key))];
        key := key + 1;
      }
    } else {
      var baseValue := U32ToVec(i);
      while key < BATCH_SIZE
        invariant 0 <= key <= BATCH_SIZE && |batch| == key
        invariant forall k | 0 <= k < key :: batch[k] == Insert(U32ToVec(k), PaddedValue(i, padding[k]))
      {
        var value := baseValue + seq(padding[key], _ => 0);
        batch := batch + [Insert(U32ToVec(key), value)];
        key := key + 1;
      }
    }
  }

  function ApplyOp(tree: Tree, op: BatchOp): Tree
  {
    match op
    case Remove(k) => tree - {k}
    case Insert(k, v) => tree[k := v]
  }

  /** `apply_batch`: the writes of the batch, in order, as one atomic step. */
  function ApplyBatch(tree: Tree, batch: seq<BatchOp>): Tree
  {
    if batch == [] then tree else ApplyOp(ApplyBatch(tree, batch[..|batch| - 1]), batch[|batch| - 1])
  }

  lemma ApplyPrefixStep(tree: Tree, batch: seq<BatchOp>, n: nat)
    requires 0 < n <= |batch|
    ensures ApplyBatch(tree, batch[..n]) == ApplyOp(ApplyBatch(tree, batch[..n - 1]), batch[n - 1])
  {
    assert batch[..n][..n - 1] == batch[..n - 1];
  }

  lemma KeysBelowStep(n: nat)
    requires n < BATCH_SIZE
    ensures KeysBelow(n + 1) == KeysBelow(n) + {U32ToVec(n)}
  {
  }

  lemma {:induction false} RemovesApplied(tree: Tree, batch: seq<BatchOp>, n: nat)
    requires n <= |batch| == BATCH_SIZE
    requires forall k | 0 <= k < BATCH_SIZE :: batch[k] == Remove(U32ToVec(k))
    ensures ApplyBatch(tree, batch[..n]) == tree - KeysBelow(n)
  {
    if n == 0 {
      assert batch[..0] == [];
      assert KeysBelow(0) == {};
    } else {
      RemovesApplied(tree, batch, n - 1);
      ApplyPrefixStep(tree, batch, n);
      KeysBelowStep(n - 1);
    }
  }

  /** `t` is `tree` with the first `n` batch keys written for round `i`. */
  predicate InsertedUpTo(tree: Tree, t: Tree, i: U32, padding: seq<nat>, n: nat)
    requires PaddingDraws(padding) && n <= BATCH_SIZE
  {
    && t.Keys == tree.Keys + KeysBelow(n)
    && (forall k | 0 <= k < n :: t[U32ToVec(k)] == PaddedValue(i, padding[k]))
    && (forall key | key in tree && key !in KeysBelow(n) :: t[key] == tree[key])
  }

  lemma InsertedStep(tree: Tree, t: Tree, i: U32, padding: seq<nat>, n: nat)
    requires PaddingDraws(padding) && n < BATCH_SIZE && InsertedUpTo(tree, t, i, padding, n)
    ensures InsertedUpTo(tree, t[U32ToVec(n) := PaddedValue(i, padding[n])], i, padding, n + 1)
  {
    KeysBelowStep(n);
    assert forall k | 0 <= k < n :: U32ToVec(k) != U32ToVec(n);
  }

  lemma {:induction false} InsertsApplied(tree: Tree, batch: seq<BatchOp>, i: U32, padding: seq<nat>, n: nat)
    requires PaddingDraws(padding) && BatchFor(i, false, padding, batch) && n <= BATCH_SIZE
    ensures InsertedUpTo(tree, ApplyBatch(tree, batch[..n]), i, padding, n)
  {
    if n == 0 {
      assert batch[..0] == [];
      assert KeysBelow(0) == {};
    } else {
      InsertsApplied(tree, batch, i, padding, n - 1);
      ApplyPrefixStep(tree, batch, n);
      InsertedStep(tree, ApplyBatch(tree, batch[..n - 1]), i, padding, n - 1);
    }
  }

  /** A batch writes the batch keys only. */
  lemma BatchTouchesBatchKeys(tree: Tree, i: U32, remove: bool, padding: seq<nat>, batch: seq<BatchOp>)
    requires PaddingDraws(padding) && BatchFor(i, remove, padding, batch)
    ensures forall key | key !in BatchKeys() ::
      (key in ApplyBatch(tree, batch) <==> key in tree) && (key in tree ==> ApplyBatch(tree, batch)[key] == tree[key])
  {
    assert batch[..BATCH_SIZE] == batch;
    assert KeysBelow(BATCH_SIZE) == BatchKeys();
    if remove {
      RemovesApplied(tree, batch, BATCH_SIZE);
    } else {
      InsertsApplied(tree, batch, i, padding, BATCH_SIZE);
    }
  }

  /** The tree a batch leaves: empty after a removal batch, uniform of round `u` after an insert batch. */
  predicate Settled(tree: Tree, remove: bool, u: U32)
  {
    if remove then tree == map[] else Uniform(tree, u)
  }

  /**
   * On a tree holding only batch keys, a removal batch leaves the empty tree
   * and an insert batch of round `i` a uniform tree of round `i`.
   */
  lemma BatchSettles(tree: Tree, i: U32, remove: bool, padding: seq<nat>, batch: seq<BatchOp>)
    requires PaddingDraws(padding) && BatchFor(i, remove, padding, batch) && tree.Keys <= BatchKeys()
    ensures Settled(ApplyBatch(tree, batch), remove, i)
  {
    assert batch[..BATCH_SIZE] == batch;
    assert KeysBelow(BATCH_SIZE) == BatchKeys();
    var after := ApplyBatch(tree, batch);
    if remove {
      RemovesApplied(tree, batch, BATCH_SIZE);
      assert after.Keys == {};
    } else {
      InsertsApplied(tree, batch, i, padding, BATCH_SIZE);
      InsertedUniform(tree, after, i, padding);
    }
  }

  /** All batch keys written for round `i` over batch keys only: a uniform tree. */
  lemma InsertedUniform(tree: Tree, t: Tree, i: U32, padding: seq<nat>)
    requires PaddingDraws(padding) && tree.Keys <= BatchKeys() && InsertedUpTo(tree, t, i, padding, BATCH_SIZE)
    ensures Uniform(t, i)
  {
    assert KeysBelow(BATCH_SIZE) == BatchKeys();
    forall k | 0 <= k < BATCH_SIZE ensures U32ToVec(k) in t && SliceToU32(t[U32ToVec(k)]) == Some(i) {
      assert U32ToVec(k) in BatchKeys();
      DecodeEncodeU32(i, seq(padding[k], _ => 0));
    }
  }

  /** A settled tree is one `verify` accepts, with 0 or the batch's round. */
  lemma SettledAccepted(tree: Tree, remove: bool, u: U32)
    requires Settled(tree, remove, u)
    ensures tree.Keys <= BatchKeys() && Consistent(tree)
    ensures VerifyResult(tree) == Some(if remove then 0 else u)
  {
    if !remove {
      UniformAccepted(tree, u);
    }
  }

  /** So one batch on a tree of batch keys leaves a tree `verify` accepts, with 0 or `i`. */
  lemma BatchOutcome(tree: Tree, i: U32, remove: bool, padding: seq<nat>, batch: seq<BatchOp>)
    requires PaddingDraws(padding) && BatchFor(i, remove, padding, batch) && tree.Keys <= BatchKeys()
    ensures VerifyResult(ApplyBatch(tree, batch)) == Some(if remove then 0 else i)
  {
    BatchSettles(tree, i, remove, padding, batch);
    SettledAccepted(ApplyBatch(tree, batch), remove, i);
  }

  // ---------------------------------------------------------------------------
  // run
  // ---------------------------------------------------------------------------

  /** The counter the loop starts from: the stored one, or 0; `None` where `slice_to_u32` panics. */
  function CounterStart(counterTree: Tree): (r: Option<U32>)
    ensures BATCH_COUNTER_KEY !in counterTree ==> r == Some(0)
    ensures BATCH_COUNTER_KEY in counterTree ==> r == SliceToU32(counterTree[BATCH_COUNTER_KEY])
  {
    if BATCH_COUNTER_KEY in counterTree then SliceToU32(counterTree[BATCH_COUNTER_KEY]) else Some(0)
  }

  /** The number of batches the loop `for counter in counter_start..batch_count` applies. */
  function LoopCount(counterStart: nat, batchCount: nat): nat
  {
    if counterStart < batchCount then batchCount - counterStart else 0
  }

  /** `i += 1` on the u32 round, as a release build wraps. */
  function NextRound(i: U32): U32
  {
    (i + 1) % 0x1_0000_0000
  }

  /** The round `n` increments after `i0`: the `n`-th batch (from 1) after a `verify` that returned `i0` writes it. */
  function Round(i0: U32, n: nat): U32
  {
    (i0 + n) % 0x1_0000_0000
  }

  lemma RoundNext(i0: U32, n: nat)
    ensures NextRound(Round(i0, n)) == Round(i0, n + 1)
  {
  }

  /** `after` is `before` with the batch of round `i`, drawn as `remove` and `padding`, applied. */
  ghost predicate Applied(before: Tree, after: Tree, i: U32, remove: bool, padding: seq<nat>)
  {
    PaddingDraws(padding) && after == ApplyBatch(before, BatchOf(i, remove, padding))
  }

  /** Each state after the first is the one before it with the next round's batch applied. */
  ghost predicate Chain(i0: U32, removes: seq<bool>, paddings: seq<seq<nat>>, states: seq<Tree>)
    decreases |states|
  {
    if |states| <= 1 then true
    else
      var n := |states| - 1;
      && n <= |removes| && n <= |paddings|
      && Chain(i0, removes, paddings, states[..n])
      && Applied(states[n - 1], states[n], Round(i0, n), removes[n - 1], paddings[n - 1])
  }

  lemma {:induction false} ChainStep(i0: U32, removes: seq<bool>, paddings: seq<seq<nat>>, states: seq<Tree>, next: Tree)
    requires |states| >= 1 && |states| <= |removes| && |states| <= |paddings|
    requires Chain(i0, removes, paddings, states)
    requires Applied(states[|states| - 1], next, Round(i0, |states|), removes[|states| - 1], paddings[|states| - 1])
    ensures Chain(i0, removes, paddings, states + [next])
  {
    var states' := states + [next];
    var n := |states|;
    assert states'[..n] == states;
    assert states'[n - 1] == states[n - 1] && states'[n] == next;
  }

  /** The chain, read at one step: state `j + 1` is state `j` with the batch of round `j + 1` applied. */
  lemma {:induction false} ChainAt(i0: U32, removes: seq<bool>, paddings: seq<seq<nat>>, states: seq<Tree>, j: nat)
    requires Chain(i0, removes, paddings, states) && j + 1 < |states|
    ensures j < |removes| && j < |paddings|
    ensures Applied(states[j], states[j + 1], Round(i0, j + 1), removes[j], paddings[j])
    decreases |states|
  {
    var n := |states| - 1;
    if j + 1 < n {
      ChainAt(i0, removes, paddings, states[..n], j);
      assert states[..n][j] == states[j] && states[..n][j + 1] == states[j + 1];
    }
  }

  /**
   * The states after `verify` returned `i0`: `states[0]` is the tree it read,
   * and each later state is the one before it with the batch of the next round
   * applied, built from that batch's draws.
   */
  ghost predicate Trace(tree: Tree, i0: U32, removes: seq<bool>, paddings: seq<seq<nat>>, states: seq<Tree>)
  {
    |states| >= 1 && states[0] == tree && Chain(i0, removes, paddings, states)
  }

  /** One more batch, of the next round, keeps the trace. */
  lemma {:induction false} TraceStep(tree: Tree, i0: U32, removes: seq<bool>, paddings: seq<seq<nat>>, states: seq<Tree>, batch: seq<BatchOp>)
    requires Trace(tree, i0, removes, paddings, states) && |states| <= |removes| && |states| <= |paddings|
    requires PaddingDraws(paddings[|states| - 1])
    requires BatchFor(Round(i0, |states|), removes[|states| - 1], paddings[|states| - 1], batch)
    ensures Trace(tree, i0, removes, paddings, states + [ApplyBatch(states[|states| - 1], batch)])
  {
    var n := |states| - 1;
    BatchForUnique(Round(i0, n + 1), removes[n], paddings[n], batch);
    ChainStep(i0, removes, paddings, states, ApplyBatch(states[n], batch));
  }

  /**
   * When the tree `verify` read held only batch keys, every later state of the
   * trace is settled by its batch: empty after a removal batch, uniform in the
   * batch's round after an insert batch.
   */
  lemma {:induction false} TraceSettled(tree: Tree, i0: U32, removes: seq<bool>, paddings: seq<seq<nat>>, states: seq<Tree>, j: nat)
    requires Trace(tree, i0, removes, paddings, states) && tree.Keys <= BatchKeys() && 1 <= j < |states|
    ensures j - 1 < |removes| && Settled(states[j], removes[j - 1], Round(i0, j)) && states[j].Keys <= BatchKeys()
    decreases j
  {
    ChainAt(i0, removes, paddings, states, j - 1);
    if j > 1 {
      TraceSettled(tree, i0, removes, paddings, states, j - 1);
    }
    AppliedSettles(states[j - 1], states[j], Round(i0, j), removes[j - 1], paddings[j - 1]);
  }

  /** One step of the trace over batch keys only settles the tree, which keeps to batch keys. */
  lemma AppliedSettles(before: Tree, after: Tree, i: U32, remove: bool, padding: seq<nat>)
    requires Applied(before, after, i, remove, padding) && before.Keys <= BatchKeys()
    ensures Settled(after, remove, i) && after.Keys <= BatchKeys()
  {
    BatchOfFor(i, remove, padding);
    BatchSettles(before, i, remove, padding, BatchOf(i, remove, padding));
  }

  /**
   * Where the loop of `run` stands after `|states| - 1` batches, the last one
   * for the loop's `counter - 1`: the round, the tree, the counter tree and the
   * trace so far.
   */
  ghost predicate Progress(tree: Tree, counterTree: Tree, i0: U32, removes: seq<bool>, paddings: seq<seq<nat>>,
                           states: seq<Tree>, i: U32, current: Tree, counters: Tree, counter: nat)
  {
    && Trace(tree, i0, removes, paddings, states)
    && current == states[|states| - 1]
    && i == Round(i0, |states| - 1)
    && Counted(counterTree, |states| - 1, counters, counter)
  }

  /** After `applied` passes, the counter tree holds the last stored counter, `counter - 1`, or is untouched. */
  ghost predicate Counted(counterTree: Tree, applied: nat, counters: Tree, counter: nat)
  {
    && (applied == 0 ==> counters == counterTree)
    && (applied > 0 ==> counter >= 1 && counter - 1 < 0x1_0000_0000 && counters == counterTree[BATCH_COUNTER_KEY := U32ToVec(counter - 1)])
  }

  lemma CountedStep(counterTree: Tree, applied: nat, counters: Tree, counter: U32)
    requires Counted(counterTree, applied, counters, counter)
    ensures Counted(counterTree, applied + 1, counters[BATCH_COUNTER_KEY := U32ToVec(counter)], counter + 1)
  {
  }

  /**
   * One pass of the loop, from round `i`, tree `current` and counter tree
   * `counters`: the next round, the tree with that round's batch applied, and
   * the loop's `counter` stored under the counter key.
   */
  ghost predicate Pass(i: U32, current: Tree, counters: Tree, counter: U32, remove: bool, padding: seq<nat>,
                       i': U32, current': Tree, counters': Tree)
  {
    && i' == NextRound(i)
    && Applied(current, current', i', remove, padding)
    && counters' == counters[BATCH_COUNTER_KEY := U32ToVec(counter)]
  }

  /** A pass that applies the batch of the next round keeps the loop's progress. */
  lemma {:induction false} ProgressStep(tree: Tree, counterTree: Tree, i0: U32, removes: seq<bool>, paddings: seq<seq<nat>>,
                     states: seq<Tree>, applied: nat, i: U32, current: Tree, counters: Tree, counter: U32, batch: seq<BatchOp>)
    requires Progress(tree, counterTree, i0, removes, paddings, states, i, current, counters, counter)
    requires |states| == applied + 1 <= |removes| && applied < |paddings| && PaddingDraws(paddings[applied])
    requires BatchFor(NextRound(i), removes[applied], paddings[applied], batch)
    ensures Progress(tree, counterTree, i0, removes, paddings, states + [ApplyBatch(current, batch)], NextRound(i),
                     ApplyBatch(current, batch), counters[BATCH_COUNTER_KEY := U32ToVec(counter)], counter + 1)
  {
    RoundNext(i0, applied);
    TraceStep(tree, i0, removes, paddings, states, batch);
    CountedStep(counterTree, applied, counters, counter);
  }

  /** Before the first pass: no batch applied, the counter tree untouched. */
  lemma ProgressStart(tree: Tree, counterTree: Tree, i0: U32, removes: seq<bool>, paddings: seq<seq<nat>>, counter: nat)
    ensures Progress(tree, counterTree, i0, removes, paddings, [tree], i0, tree, counterTree, counter)
  {
  }

  /** One pass of the loop of `run`: `i += 1`, `do_batch(i)`, then the counter is stored. */
  method NextBatch(ghost tree: Tree, ghost counterTree: Tree, ghost i0: U32, removes: seq<bool>, paddings: seq<seq<nat>>,
                   ghost states: seq<Tree>, applied: nat, i: U32, current: Tree, counters: Tree, counter: U32)
    returns (i': U32, current': Tree, counters': Tree, ghost states': seq<Tree>)
    requires Progress(tree, counterTree, i0, removes, paddings, states, i, current, counters, counter)
    requires |states| == applied + 1 <= |removes| && applied < |paddings| && PaddingDraws(paddings[applied])
    ensures Progress(tree, counterTree, i0, removes, paddings, states', i', current', counters', counter + 1)
    ensures |states'| == |states| + 1
    ensures Pass(i, current, counters, counter, removes[applied], paddings[applied], i', current', counters')
  {
    i' := NextRound(i);
    var batch := DoBatch(i', removes[applied], paddings[applied]);
    ProgressStep(tree, counterTree, i0, removes, paddings, states, applied, i, current, counters, counter, batch);
    BatchForUnique(i', removes[applied], paddings[applied], batch);
    current' := ApplyBatch(current, batch);
    states' := states + [current'];
    counters' := counters[BATCH_COUNTER_KEY := U32ToVec(counter)];
  }

  /**
   * `run` after the database is open: `tree` is the default tree, `counterTree`
   * the `batch_counter` tree; `removes[j]` and `paddings[j]` are the random
   * draws of the `j`-th batch. `ok` is false where the source panics; `applied`
   * is the number of batches, `states` the tree after each one (the states a
   * crash may leave, since batches are atomic).
   */
  method Run(tree: Tree, counterTree: Tree, batchCount: U32, removes: seq<bool>, paddings: seq<seq<nat>>)
    returns (ok: bool, applied: nat, tree': Tree, counterTree': Tree, ghost states: seq<Tree>)
    requires |removes| >= batchCount && |paddings| >= batchCount
    requires forall j | 0 <= j < |paddings| :: PaddingDraws(paddings[j])
    ensures ok <==> VerifyResult(tree).Some? && CounterStart(counterTree).Some?
    ensures ok ==> applied == LoopCount(CounterStart(counterTree).value, batchCount)
    ensures ok ==> |states| == applied + 1 && states[applied] == tree'
    ensures ok ==> Trace(tree, VerifyResult(tree).value, removes, paddings, states)
    ensures ok && applied == 0 ==> counterTree' == counterTree
    ensures ok && applied > 0 ==> counterTree' == counterTree[BATCH_COUNTER_KEY := U32ToVec(batchCount - 1)]
  {
    tree', counterTree', applied, states := tree, counterTree, 0, [tree];
    var verified := Verify(tree);
    if verified.None? {
      return false, applied, tree', counterTree', states;
    }
    var counterStart: U32 := 0;
    if BATCH_COUNTER_KEY in counterTree {
      var stored := SliceToU32(counterTree[BATCH_COUNTER_KEY]);
      if stored.None? {
        return false, applied, tree', counterTree', states;
      }
      counterStart := stored.value;
    }
    applied, tree', counterTree', states := RunBatches(tree, counterTree, verified.value, counterStart, batchCount, removes, paddings);
    ok := true;
  }

  /** The loop `for counter in counter_start..batch_count` of `run`, after `verify` returned `i0`. */
  method RunBatches(tree: Tree, counterTree: Tree, i0: U32, counterStart: U32, batchCount: U32,
                    removes: seq<bool>, paddings: seq<seq<nat>>)
    returns (applied: nat, tree': Tree, counterTree': Tree, ghost states: seq<Tree>)
    requires |removes| >= batchCount && |paddings| >= batchCount
    requires forall j | 0 <= j < |paddings| :: PaddingDraws(paddings[j])
    ensures applied == LoopCount(counterStart, batchCount)
    ensures |states| == applied + 1 && states[applied] == tree'
    ensures Trace(tree, i0, removes, paddings, states)
    ensures applied == 0 ==> counterTree' == counterTree
    ensures applied > 0 ==> counterTree' == counterTree[BATCH_COUNTER_KEY := U32ToVec(batchCount - 1)]
  {
    tree', counterTree', applied, states := tree, counterTree, 0, [tree];
    var i := i0;
    var counter := counterStart;
    ProgressStart(tree, counterTree, i0, removes, paddings, counter);
    while counter < batchCount
      invariant counter == counterStart + applied && (applied == 0 || counter <= batchCount)
      invariant |states| == applied + 1
      invariant Progress(tree, counterTree, i0, removes, paddings, states, i, tree', counterTree', counter)
    {
      i, tree', counterTree', states := NextBatch(tree, counterTree, i0, removes, paddings, states, applied, i, tree', counterTree', counter);
      counter := counter + 1;
      applied := applied + 1;
    }
  }

  /**
   * A crash between batches leaves a tree `verify` accepts, with 0 after a
   * removal batch and the batch's round otherwise, whenever the run started
   * from a tree of batch keys only.
   */
  lemma TraceAccepted(tree: Tree, i0: U32, removes: seq<bool>, paddings: seq<seq<nat>>, states: seq<Tree>)
    requires Trace(tree, i0, removes, paddings, states) && tree.Keys <= BatchKeys() && VerifyResult(tree).Some?
    ensures forall j | 0 <= j < |states| :: Consistent(states[j])
    ensures forall j | 1 <= j < |states| :: VerifyResult(states[j]) == Some(if removes[j - 1] then 0 else Round(i0, j))
  {
    ConsistentIffAccepted(tree);
    forall j | 1 <= j < |states| ensures Consistent(states[j]) && VerifyResult(states[j]) == Some(if removes[j - 1] then 0 else Round(i0, j)) {
      TraceSettled(tree, i0, removes, paddings, states, j);
      SettledAccepted(states[j], removes[j - 1], Round(i0, j));
    }
  }

  // ---------------------------------------------------------------------------
  // The batch count argument
  // ---------------------------------------------------------------------------

  /** `str::parse::<u32>`: as for `usize`, with a 32-bit bound. */
  function ParseU32(s: string): (r: Option<U32>)
    ensures r.Some? <==> ParseUsize(s).Some? && ParseUsize(s).value < 0x1_0000_0000
  {
    match ParseUsize(s)
    case None => None
    case Some(n) => if n < 0x1_0000_0000 then Some(n) else None
  }

  /** The batch count: the default without an argument, `None` (exit status 1) for one that does not parse. */
  function BatchCount(argument: Option<string>): (r: Option<U32>)
    ensures argument.None? ==> r == Some(DEFAULT_BATCH_COUNT)
    ensures argument.Some? ==> r == ParseU32(argument.value)
  {
    match argument
    case None => Some(DEFAULT_BATCH_COUNT)
    case Some(a) => ParseU32(a)
  }

  /** Every u32 written in decimal is accepted as a batch count; an empty argument is not. */
  lemma BatchCountDecimal(n: U32)
    ensures BatchCount(Some(Decimal(n))) == Some(n)
    ensures BatchCount(Some("")).None?
  {
    ParseUsizeDecimal(n, "");
  }
}
