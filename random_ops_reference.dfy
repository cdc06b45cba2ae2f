/**
 * The random_ops checker's reference model: for every key the sequence of
 * versions it may hold after a crash, plus the counters the workload keeps.
 * The operations of the recorded history drive it: `update_before` records
 * what an operation may have done, `update_after` what it has certainly done,
 * and recovery from a crash prunes versions from batches that did not commit.
 */
module RandomOpsReference {
  import opened Prelude
  import opened RandomOpsCodec

  /** A value a key may hold (None: absent), and the batch that wrote it, if any. */
  datatype ReferenceVersion = ReferenceVersion(value: Option<U16>, batch: Option<U32>)

  datatype ReferenceEntry = ReferenceEntry(versions: seq<ReferenceVersion>, crashEpoch: U32)

  type Entries = map<U16, ReferenceEntry>

  /** The fields of `Reference` as one value. `maxId` is an `isize`. */
  datatype RefState = RefState(entries: Entries, setCounter: U16, maxId: int, crashCounter: U32, batchCounter: U32)

  /** `Reference::new`. */
  const INITIAL: RefState := RefState(map[], 0, -1, 0, 1)

  /** `x += 1` on a u16 or u32 counter, wrapping around. */
  function Inc16(x: U16): (r: U16)
    ensures r == (x + 1) % U16_LIMIT
  {
    if x == U16_LIMIT - 1 then 0 else x + 1
  }

  function Inc32(x: U32): (r: U32)
    ensures r == (x + 1) % U32_LIMIT
  {
    if x == U32_LIMIT - 1 then 0 else x + 1
  }

  /** `id as isize` on a 64-bit target: the two's-complement reading of the u64. */
  function AsIsize(id: U64): (r: int)
    ensures -0x8000_0000_0000_0000 <= r < 0x8000_0000_0000_0000
    ensures r % U64_LIMIT == id
  {
    if id < 0x8000_0000_0000_0000 then id else id - U64_LIMIT
  }

  // ---------------------------------------------------------------------------
  // The transitions, as functions of the state
  // ---------------------------------------------------------------------------

  /**
   * A Set of `key`: the entry is created with one absent version if it is
   * missing, then gets the version `Some(key)`; its crash epoch becomes `epoch`.
   */
  function RecordSet(m: Entries, key: U16, epoch: U32, batch: Option<U32>): Entries
  {
    var e := if key in m then m[key] else ReferenceEntry([ReferenceVersion(None, None)], epoch);
    m[key := ReferenceEntry(e.versions + [ReferenceVersion(Some(key), batch)], epoch)]
  }

  /** A Del of `key`: only an existing entry gets an absent version. */
  function RecordDel(m: Entries, key: U16, epoch: U32, batch: Option<U32>): Entries
  {
    if key in m then m[key := ReferenceEntry(m[key].versions + [ReferenceVersion(None, batch)], epoch)] else m
  }

  function BatchStep(s: RefState, op: BatchOp): RefState
  {
    match op
    case Set =>
      s.(entries := RecordSet(s.entries, s.setCounter, s.crashCounter, Some(s.batchCounter)),
         setCounter := Inc16(s.setCounter))
    case Del(key) => s.(entries := RecordDel(s.entries, key, s.crashCounter, Some(s.batchCounter)))
  }

  function ApplyBatch(s: RefState, ops: seq<BatchOp>): RefState
    decreases |ops|
  {
    if ops == [] then s else ApplyBatch(BatchStep(s, ops[0]), ops[1..])
  }

  /** A version written by a batch that committed (at or below the stable batch). */
  predicate Stable(v: ReferenceVersion, stableBatch: U32)
  {
    v.batch.Some? && v.batch.value <= stableBatch
  }

  /** A version written by a batch that did not commit. */
  predicate Unstable(v: ReferenceVersion, stableBatch: U32)
  {
    v.batch.Some? && v.batch.value > stableBatch
  }

  /** The reverse search for the last stable version. */
  function LastStable(vs: seq<ReferenceVersion>, b: U32): (r: Option<nat>)
    ensures r.Some? ==> r.value < |vs| && Stable(vs[r.value], b)
    ensures forall k | (if r.Some? then r.value + 1 else 0) <= k < |vs| :: !Stable(vs[k], b)
  {
    if vs == [] then None
    else if Stable(vs[|vs| - 1], b) then Some(|vs| - 1)
    else LastStable(vs[..|vs| - 1], b)
  }

  /** The forward search for the first unstable version. */
  function FirstUnstable(vs: seq<ReferenceVersion>, b: U32): (r: Option<nat>)
    ensures r.Some? ==> r.value < |vs| && Unstable(vs[r.value], b)
    ensures forall k | 0 <= k < (if r.Some? then r.value else |vs|) :: !Unstable(vs[k], b)
  {
    if vs == [] then None
    else if Unstable(vs[0], b) then Some(0)
    else match FirstUnstable(vs[1..], b)
      case None => None
      case Some(i) => Some(i + 1)
  }

  /**
   * The versions `prune_reference` keeps of an entry with several: from the
   * last stable version on (or from the start if there is none), up to the
   * first unstable version after that.
   */
  function PruneVersions(vs: seq<ReferenceVersion>, b: U32): (r: seq<ReferenceVersion>)
    ensures var lo := if LastStable(vs, b).Some? then LastStable(vs, b).value else 0;
      && lo + |r| <= |vs|
      && r == vs[lo..lo + |r|]
      && (lo + |r| == |vs| || Unstable(vs[lo + |r|], b))
    ensures forall k | 0 <= k < |r| :: !Unstable(r[k], b)
    ensures LastStable(vs, b).Some? ==> r != [] && r[0] == vs[LastStable(vs, b).value]
    ensures forall k | 1 <= k < |r| :: !Stable(r[k], b)
  {
    var tail := match LastStable(vs, b) case None => vs case Some(i) => vs[i..];
    match FirstUnstable(tail, b)
    case None => tail
    case Some(j) => tail[..j]
  }

  function PruneEntry(e: ReferenceEntry, b: U32): ReferenceEntry
  {
    if |e.versions| == 1 then e else e.(versions := PruneVersions(e.versions, b))
  }

  function PruneEntries(m: Entries, b: U32): Entries
  {
    map k | k in m :: PruneEntry(m[k], b)
  }

  /** What a Flush makes durable: an entry last touched since the latest crash keeps only its last version. */
  function FlushEntry(e: ReferenceEntry, crashCounter: U32): ReferenceEntry
  {
    if |e.versions| > 1 && e.crashEpoch == crashCounter then e.(versions := [e.versions[|e.versions| - 1]]) else e
  }

  function FlushEntries(m: Entries, crashCounter: U32): Entries
  {
    map k | k in m :: FlushEntry(m[k], crashCounter)
  }

  /** `update_before`, or None where its assertion on generated ids fails. */
  function Before(s: RefState, op: Op): Option<RefState>
  {
    match op
    case Set => Some(s.(entries := RecordSet(s.entries, s.setCounter, s.crashCounter, None)))
    case Del(key) => Some(s.(entries := RecordDel(s.entries, key, s.crashCounter, None)))
    case Batched(ops) => Some(ApplyBatch(s, ops))
    case CrashAndRecoveryVirtualOp(b) =>
      Some(s.(crashCounter := Inc32(s.crashCounter), entries := PruneEntries(s.entries, b)))
    case IdResultVirtualOp(id) =>
      if AsIsize(id) > s.maxId then Some(s.(maxId := AsIsize(id))) else None
    case _ => Some(s)
  }

  /** `update_after`. */
  function After(s: RefState, op: Op): RefState
  {
    match op
    case Set => s.(setCounter := Inc16(s.setCounter))
    case Batched(_) => s.(batchCounter := Inc32(s.batchCounter))
    case Flush => s.(entries := FlushEntries(s.entries, s.crashCounter))
    case _ => s
  }

  /** `construct_reference` from a given state: both updates for each operation in turn. */
  function ConstructFrom(s: RefState, ops: seq<Op>): Option<RefState>
    decreases |ops|
  {
    if ops == [] then Some(s)
    else match Before(s, ops[0])
      case None => None
      case Some(s1) => ConstructFrom(After(s1, ops[0]), ops[1..])
  }

  function Construct(ops: seq<Op>): Option<RefState>
  {
    ConstructFrom(INITIAL, ops)
  }

  // ---------------------------------------------------------------------------
  // The reference as an object updated in place
  // ---------------------------------------------------------------------------

  class Reference {
    var entries: Entries
    var setCounter: U16
    var maxId: int
    var crashCounter: U32
    var batchCounter: U32

    function State(): RefState
      reads this
    {
      RefState(entries, setCounter, maxId, crashCounter, batchCounter)
    }

    /** `Reference::new`. */
    constructor ()
      ensures State() == INITIAL
    {
      entries := map[];
      setCounter := 0;
      maxId := -1;
      crashCounter := 0;
      batchCounter := 1;
    }

    /** The Set arm of `update_before`; `batch` is the batch counter for a Set inside a batch. */
    method InsertVersion(batch: Option<U32>)
      modifies this
      ensures State() == old(State()).(entries := RecordSet(old(entries), old(setCounter), old(crashCounter), batch))
    {
      var entry := if setCounter in entries then entries[setCounter]
        else ReferenceEntry([ReferenceVersion(None, None)], crashCounter);
      entry := entry.(versions := entry.versions + [ReferenceVersion(Some(setCounter), batch)]);
      entry := entry.(crashEpoch := crashCounter);
      entries := entries[setCounter := entry];
    }

    /** The Del arm of `update_before`: `and_modify` on the entry, if there is one. */
    method RemoveVersion(key: U16, batch: Option<U32>)
      modifies this
      ensures State() == old(State()).(entries := RecordDel(old(entries), key, old(crashCounter), batch))
    {
      if key in entries {
        var entry := entries[key];
        entries := entries[key := ReferenceEntry(entry.versions + [ReferenceVersion(None, batch)], crashCounter)];
      }
    }

    /** `update_before`; `ok` is false where the assertion that ids grow fails. */
    method UpdateBefore(op: Op) returns (ok: bool)
      modifies this
      ensures ok == Before(old(State()), op).Some?
      ensures ok ==> State() == Before(old(State()), op).value
    {
      ok := true;
      match op {
        case Set =>
          InsertVersion(None);
        case Del(key) =>
          RemoveVersion(key, None);
        case Batched(batchOps) =>
          var i := 0;
          while i < |batchOps|
            invariant 0 <= i <= |batchOps|
            invariant ApplyBatch(old(State()), batchOps) == ApplyBatch(State(), batchOps[i..])
          {
            assert batchOps[i..][1..] == batchOps[i + 1..];
            match batchOps[i] {
              case Set =>
                InsertVersion(Some(batchCounter));
                setCounter := Inc16(setCounter);
              case Del(key) =>
                RemoveVersion(key, Some(batchCounter));
            }
            i := i + 1;
          }
        case CrashAndRecoveryVirtualOp(b) =>
          crashCounter := Inc32(crashCounter);
          PruneReference(b);
        case IdResultVirtualOp(id) =>
          if AsIsize(id) > maxId {
            maxId := AsIsize(id);
          } else {
            ok := false;
          }
        case _ =>
      }
    }

    /** `update_after`. */
    method UpdateAfter(op: Op)
      modifies this
      ensures State() == After(old(State()), op)
    {
      match op {
        case Set => setCounter := Inc16(setCounter);
        case Batched(_) => batchCounter := Inc32(batchCounter);
        case Flush =>
          var m := entries;
          var pending := m.Keys;
          while pending != {}
            invariant pending <= entries.Keys && m.Keys == entries.Keys
            invariant forall k | k in entries ::
              m[k] == if k in pending then entries[k] else FlushEntry(entries[k], crashCounter)
            decreases |pending|
          {
            var k :| k in pending;
            var entry := m[k];
            if |entry.versions| > 1 && entry.crashEpoch == crashCounter {
              assert entry.versions[|entry.versions| - 1..] == [entry.versions[|entry.versions| - 1]];
              entry := entry.(versions := entry.versions[|entry.versions| - 1..]);
            }
            m := m[k := entry];
            pending := pending - {k};
          }
          assert m == FlushEntries(entries, crashCounter);
          entries := m;
        case _ =>
      }
    }

    /** `prune_reference` on this reference's map: entry by entry, cut the versions down as `PruneVersions` says. */
    method PruneReference(stableBatch: U32)
      modifies this
      ensures State() == old(State()).(entries := PruneEntries(old(entries), stableBatch))
    {
      var m := entries;
      var pending := m.Keys;
      while pending != {}
        invariant pending <= entries.Keys && m.Keys == entries.Keys
        invariant forall k | k in entries ::
          m[k] == if k in pending then entries[k] else PruneEntry(entries[k], stableBatch)
        decreases |pending|
      {
        var k :| k in pending;
        var entry := m[k];
        if |entry.versions| != 1 {
          var versions := entry.versions;
          var committed := LastStable(versions, stableBatch);
          if committed.Some? {
            versions := versions[committed.value..];
          }
          var discarded := FirstUnstable(versions, stableBatch);
          if discarded.Some? {
            versions := versions[..discarded.value];
          }
          entry := entry.(versions := versions);
        }
        m := m[k := entry];
        pending := pending - {k};
      }
      assert m == PruneEntries(entries, stableBatch);
      entries := m;
    }
  }

  /** `construct_reference`; `ok` is false where `update_before` would panic. */
  method ConstructReference(ops: seq<Op>) returns (reference: Reference, ok: bool)
    ensures ok == Construct(ops).Some?
    ensures ok ==> reference.State() == Construct(ops).value
  {
    reference := new Reference();
    var i := 0;
    while i < |ops|
      invariant 0 <= i <= |ops|
      invariant Construct(ops) == ConstructFrom(reference.State(), ops[i..])
    {
      assert ops[i..][0] == ops[i] && ops[i..][1..] == ops[i + 1..];
      ok := reference.UpdateBefore(ops[i]);
      if !ok {
        return;
      }
      reference.UpdateAfter(ops[i]);
      i := i + 1;
    }
    ok := true;
  }

  // ---------------------------------------------------------------------------
  // Properties of the transitions
  // ---------------------------------------------------------------------------

  /**
   * A Set records `Some(set_counter)` as the newest version of key
   * `set_counter`, after the entry's old versions or a single absent one;
   * no other entry changes, and `update_after` then advances the counter.
   */
  lemma SetRecordsKey(s: RefState)
    ensures Before(s, Op.Set).Some?
    ensures var s1 := Before(s, Op.Set).value;
      var k := s.setCounter;
      && s1.entries.Keys == s.entries.Keys + {k}
      && s1.entries[k].versions ==
         (if k in s.entries then s.entries[k].versions else [ReferenceVersion(None, None)])
         + [ReferenceVersion(Some(k), None)]
      && s1.entries[k].crashEpoch == s.crashCounter
      && (forall j | j in s.entries && j != k :: s1.entries[j] == s.entries[j])
      && After(s1, Op.Set).setCounter == (k + 1) % U16_LIMIT
      && After(s1, Op.Set).entries == s1.entries
  {
  }

  /** A Del only appends to an entry that exists; a key that was never set stays absent. */
  lemma DelOnlyExisting(s: RefState, key: U8)
    ensures Before(s, Op.Del(key)).Some?
    ensures var s1 := Before(s, Op.Del(key)).value;
      && s1.entries.Keys == s.entries.Keys
      && (key in s.entries ==> s1.entries[key].versions == s.entries[key].versions + [ReferenceVersion(None, None)])
      && (key !in s.entries ==> s1 == s)
      && (forall j | j in s.entries && j != key :: s1.entries[j] == s.entries[j])
  {
  }

  function CountSets(ops: seq<BatchOp>): nat
  {
    if ops == [] then 0 else (if ops[0].Set? then 1 else 0) + CountSets(ops[1..])
  }

  /**
   * A batch advances the set counter by its number of Sets (wrapping), tags
   * every version it adds with the current batch counter, and leaves the
   * other counters alone; `update_after` then advances the batch counter.
   */
  lemma {:induction false} BatchAdvancesCounters(s: RefState, ops: seq<BatchOp>)
    ensures var s1 := ApplyBatch(s, ops);
      && s1.setCounter == (s.setCounter + CountSets(ops)) % U16_LIMIT
      && s1.batchCounter == s.batchCounter && s1.crashCounter == s.crashCounter && s1.maxId == s.maxId
      && s.entries.Keys <= s1.entries.Keys
      && After(s1, Batched(ops)).batchCounter == (s.batchCounter + 1) % U32_LIMIT
    decreases |ops|
  {
    if ops != [] {
      var s0 := BatchStep(s, ops[0]);
      BatchAdvancesCounters(s0, ops[1..]);
      assert s0.setCounter == (s.setCounter + (if ops[0].Set? then 1 else 0)) % U16_LIMIT;
    }
  }

  /** The id check accepts exactly an id above all earlier ones (as `isize`), and records it. */
  lemma IdMustGrow(s: RefState, id: U64)
    ensures Before(s, IdResultVirtualOp(id)).Some? <==> AsIsize(id) > s.maxId
    ensures Before(s, IdResultVirtualOp(id)).Some? ==>
      Before(s, IdResultVirtualOp(id)).value == s.(maxId := AsIsize(id))
  {
  }

  /**
   * After a Flush, every entry with several versions that was touched since
   * the latest crash holds just its last one; every other entry is unchanged.
   */
  lemma FlushKeepsLast(s: RefState)
    ensures var s1 := After(s, Flush);
      && s1.entries.Keys == s.entries.Keys
      && (forall k | k in s.entries && |s.entries[k].versions| > 1 && s.entries[k].crashEpoch == s.crashCounter ::
            s1.entries[k].versions == [s.entries[k].versions[|s.entries[k].versions| - 1]])
      && (forall k | k in s.entries && !(|s.entries[k].versions| > 1 && s.entries[k].crashEpoch == s.crashCounter) ::
            s1.entries[k] == s.entries[k])
      && s1.(entries := s.entries) == s
  {
  }

  /**
   * Recovery advances the crash counter and prunes every entry: one with a
   * single version is untouched, the others keep a slice of their versions.
   */
  lemma CrashPrunes(s: RefState, b: U32)
    ensures Before(s, CrashAndRecoveryVirtualOp(b)).Some?
    ensures var s1 := Before(s, CrashAndRecoveryVirtualOp(b)).value;
      && s1.crashCounter == (s.crashCounter + 1) % U32_LIMIT
      && s1.entries.Keys == s.entries.Keys
      && (forall k | k in s.entries && |s.entries[k].versions| == 1 :: s1.entries[k] == s.entries[k])
      && (forall k | k in s.entries && |s.entries[k].versions| != 1 ::
            s1.entries[k].versions == PruneVersions(s.entries[k].versions, b))
      && (forall k, i | k in s1.entries && |s.entries[k].versions| != 1 && 0 <= i < |s1.entries[k].versions| ::
            !Unstable(s1.entries[k].versions[i], b))
  {
    var s1 := Before(s, CrashAndRecoveryVirtualOp(b)).value;
    forall k, i | k in s1.entries && |s.entries[k].versions| != 1 && 0 <= i < |s1.entries[k].versions|
      ensures !Unstable(s1.entries[k].versions[i], b)
    {
      assert s1.entries[k].versions == PruneVersions(s.entries[k].versions, b);
    }
  }

  /** The ids an operation sequence reports, as the checker compares them (`isize`). */
  function ReportedIds(ops: seq<Op>): seq<int>
  {
    if ops == [] then []
    else (if ops[0].IdResultVirtualOp? then [AsIsize(ops[0].id)] else []) + ReportedIds(ops[1..])
  }

  predicate StrictlyIncreasing(xs: seq<int>)
  {
    forall i, j | 0 <= i < j < |xs| :: xs[i] < xs[j]
  }

  /** Building the reference fails exactly when the reported ids, after the initial -1, fail to increase. */
  lemma ConstructSucceedsIff(ops: seq<Op>)
    ensures Construct(ops).Some? <==> StrictlyIncreasing([-1] + ReportedIds(ops))
  {
    ConstructFromSucceedsIff(INITIAL, ops);
  }

  lemma {:induction false} ConstructFromSucceedsIff(s: RefState, ops: seq<Op>)
    ensures ConstructFrom(s, ops).Some? <==> StrictlyIncreasing([s.maxId] + ReportedIds(ops))
    ensures ConstructFrom(s, ops).Some? ==>
      ConstructFrom(s, ops).value.maxId == Last([s.maxId] + ReportedIds(ops))
    decreases |ops|
  {
    var xs := [s.maxId] + ReportedIds(ops);
    if ops != [] {
      var op := ops[0];
      var rest := ReportedIds(ops[1..]);
      match Before(s, op)
      case None =>
        assert op.IdResultVirtualOp? && AsIsize(op.id) <= s.maxId;
        assert ReportedIds(ops) == [AsIsize(op.id)] + rest;
        assert xs[1] == AsIsize(op.id) && xs[0] == s.maxId;
        assert !(xs[0] < xs[1]);
        assert ConstructFrom(s, ops) == None;
      case Some(s1) =>
        var s2 := After(s1, op);
        ConstructFromSucceedsIff(s2, ops[1..]);
        MaxIdOnlyFromIds(s, op);
        if op.IdResultVirtualOp? {
          assert s2.maxId == AsIsize(op.id) > s.maxId;
          assert xs == [s.maxId] + ([s2.maxId] + rest);
          IncreasingCons(s.maxId, [s2.maxId] + rest);
        } else {
          assert s2.maxId == s.maxId;
          assert xs == [s.maxId] + rest;
        }
    }
  }

  function Last(xs: seq<int>): int
    requires xs != []
  {
    xs[|xs| - 1]
  }

  lemma IncreasingCons(x: int, ys: seq<int>)
    requires ys != [] && x < ys[0]
    ensures StrictlyIncreasing([x] + ys) <==> StrictlyIncreasing(ys)
  {
    var xs := [x] + ys;
    if StrictlyIncreasing(ys) {
      forall i, j | 0 <= i < j < |xs| ensures xs[i] < xs[j] {
        if i == 0 && j > 1 { assert ys[0] < ys[j - 1]; }
        if i > 0 { assert xs[i] == ys[i - 1] && xs[j] == ys[j - 1]; }
      }
    }
    if StrictlyIncreasing(xs) {
      forall i, j | 0 <= i < j < |ys| ensures ys[i] < ys[j] {
        assert ys[i] == xs[i + 1] && ys[j] == xs[j + 1];
      }
    }
  }

  /** Only an id report moves `max_id`. */
  lemma MaxIdOnlyFromIds(s: RefState, op: Op)
    requires Before(s, op).Some?
    ensures After(Before(s, op).value, op).maxId == (if op.IdResultVirtualOp? then AsIsize(op.id) else s.maxId)
  {
    if op.Batched? { BatchAdvancesCounters(s, op.ops); }
  }

  /** Every version an entry holds is absent or the entry's own key: the value written under key k is k. */
  predicate ValuesMatchKeys(m: Entries)
  {
    forall k, i | k in m && 0 <= i < |m[k].versions| :: m[k].versions[i].value.Some? ==> m[k].versions[i].value.value == k
  }

  /** No operation breaks that invariant ... */
  lemma StepKeepsValues(s: RefState, op: Op)
    requires ValuesMatchKeys(s.entries) && Before(s, op).Some?
    ensures ValuesMatchKeys(Before(s, op).value.entries)
    ensures ValuesMatchKeys(After(Before(s, op).value, op).entries)
  {
    match op
    case Batched(ops) => BatchKeepsValues(s, ops);
    case CrashAndRecoveryVirtualOp(b) => PruneKeepsValues(s.entries, b);
    case Flush => FlushKeepsValues(s.entries, s.crashCounter);
    case _ =>
  }

  lemma PruneKeepsValues(m: Entries, b: U32)
    requires ValuesMatchKeys(m)
    ensures ValuesMatchKeys(PruneEntries(m, b))
  {
    var p := PruneEntries(m, b);
    forall k, i | k in p && 0 <= i < |p[k].versions| && p[k].versions[i].value.Some?
      ensures p[k].versions[i].value.value == k
    {
      var vs := m[k].versions;
      if |vs| != 1 {
        var lo := if LastStable(vs, b).Some? then LastStable(vs, b).value else 0;
        assert p[k].versions[i] == vs[lo + i];
      }
    }
  }

  lemma FlushKeepsValues(m: Entries, crashCounter: U32)
    requires ValuesMatchKeys(m)
    ensures ValuesMatchKeys(FlushEntries(m, crashCounter))
  {
    var f := FlushEntries(m, crashCounter);
    forall k, i | k in f && 0 <= i < |f[k].versions| && f[k].versions[i].value.Some?
      ensures f[k].versions[i].value.value == k
    {
      var vs := m[k].versions;
      if |vs| > 1 && m[k].crashEpoch == crashCounter {
        assert f[k].versions[i] == vs[|vs| - 1];
      }
    }
  }

  lemma {:induction false} BatchKeepsValues(s: RefState, ops: seq<BatchOp>)
    requires ValuesMatchKeys(s.entries)
    ensures ValuesMatchKeys(ApplyBatch(s, ops).entries)
    decreases |ops|
  {
    if ops != [] {
      BatchKeepsValues(BatchStep(s, ops[0]), ops[1..]);
    }
  }

  /** ... so it holds of every reference the checker builds. */
  lemma {:induction false} ConstructKeepsValues(s: RefState, ops: seq<Op>)
    requires ValuesMatchKeys(s.entries) && ConstructFrom(s, ops).Some?
    ensures ValuesMatchKeys(ConstructFrom(s, ops).value.entries)
    decreases |ops|
  {
    if ops != [] {
      StepKeepsValues(s, ops[0]);
      ConstructKeepsValues(After(Before(s, ops[0]).value, ops[0]), ops[1..]);
    }
  }
}
