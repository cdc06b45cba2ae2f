/**
 * The transactions checker's `main`: it replays the workload's Start/End
 * reports into a status per transaction, collects every key the specs touch,
 * refuses a recovered database holding any other key, reads every key back
 * as one extra transaction stamped after everything else, and hands the whole
 * history to `check_history`. A panic anywhere is the verdict `Some(false)`.
 */
module TransactionsMain {
  import opened Prelude
  import opened Transactions
  import opened TransactionsChecker
  import opened MonosatGnf
  import opened Cnf
  import CH = CheckHistory

  // ---------------------------------------------------------------------------
  // Status tracking
  // ---------------------------------------------------------------------------

  /** The timestamp a report carries: the start of a Start, the end of an End. */
  function Timestamp(out: TransactionOutput): U128
  {
    match out
    case Start(_, start) => start
    case End(_, end, _) => end
  }

  /** `max_timestamp` after the reports `outs`: `None` before the first one. */
  function MaxTimestamp(outs: seq<TransactionOutput>): Option<U128>
  {
    if outs == [] then None
    else
      var t := Timestamp(outs[|outs| - 1]);
      match MaxTimestamp(outs[..|outs| - 1])
      case None => Some(t)
      case Some(m) => if t > m then Some(t) else Some(m)
  }

  /** `max_timestamp` is the largest timestamp reported, and exists once anything was reported. */
  lemma {:induction false} MaxTimestampIsMax(outs: seq<TransactionOutput>)
    ensures MaxTimestamp(outs).None? <==> outs == []
    ensures MaxTimestamp(outs).Some? ==>
      && (forall k | 0 <= k < |outs| :: Timestamp(outs[k]) <= MaxTimestamp(outs).value)
      && (exists k | 0 <= k < |outs| :: Timestamp(outs[k]) == MaxTimestamp(outs).value)
    decreases |outs|
  {
    if outs != [] {
      var init := outs[..|outs| - 1];
      MaxTimestampIsMax(init);
      var m := MaxTimestamp(outs).value;
      forall k | 0 <= k < |outs|
        ensures Timestamp(outs[k]) <= m
      {
        if k < |init| {
          assert outs[k] == init[k];
        }
      }
      if MaxTimestamp(init).Some? && m == MaxTimestamp(init).value {
        var k :| 0 <= k < |init| && Timestamp(init[k]) == m;
        assert outs[k] == init[k];
      } else {
        assert Timestamp(outs[|outs| - 1]) == m;
      }
    }
  }

  /** One report applied to the statuses; `None` where `main` panics. */
  function Step(statuses: seq<TransactionStatus>, out: TransactionOutput): Option<seq<TransactionStatus>>
  {
    if out.transactionIdx >= |statuses| then None
    else
      match out
      case Start(i, start) =>
        if statuses[i].NeverRan? then Some(statuses[i := Crashed(start)]) else None
      case End(i, end, results) =>
        match statuses[i]
        case Crashed(start) =>
          if end < start then None else Some(statuses[i := Completed(start, end, results)])
        case _ => None
  }

  /** The statuses of `n` transactions after the reports `outs`, starting from all `NeverRan`. */
  function Track(n: nat, outs: seq<TransactionOutput>): Option<seq<TransactionStatus>>
  {
    if outs == [] then Some(seq(n, _ => NeverRan))
    else
      match Track(n, outs[..|outs| - 1])
      case None => None
      case Some(statuses) => Step(statuses, outs[|outs| - 1])
  }

  /** Some report names transaction `i`. */
  predicate Mentioned(outs: seq<TransactionOutput>, i: nat)
  {
    exists k | 0 <= k < |outs| :: outs[k].transactionIdx == i
  }

  /** Some End report names transaction `i`. */
  predicate Ended(outs: seq<TransactionOutput>, i: nat)
  {
    exists k | 0 <= k < |outs| :: outs[k].End? && outs[k].transactionIdx == i
  }

  lemma MentionedSnoc(outs: seq<TransactionOutput>, out: TransactionOutput, i: nat)
    ensures Mentioned(outs + [out], i) <==> Mentioned(outs, i) || out.transactionIdx == i
    ensures Ended(outs + [out], i) <==> Ended(outs, i) || (out.End? && out.transactionIdx == i)
  {
    var all := outs + [out];
    if Mentioned(all, i) && out.transactionIdx != i {
      var k :| 0 <= k < |all| && all[k].transactionIdx == i;
      assert all[k] == outs[k];
    }
    if Mentioned(outs, i) {
      var k :| 0 <= k < |outs| && outs[k].transactionIdx == i;
      assert all[k] == outs[k];
    }
    if out.transactionIdx == i {
      assert all[|outs|] == out;
    }
    if Ended(all, i) && !(out.End? && out.transactionIdx == i) {
      var k :| 0 <= k < |all| && all[k].End? && all[k].transactionIdx == i;
      assert all[k] == outs[k];
    }
    if Ended(outs, i) {
      var k :| 0 <= k < |outs| && outs[k].End? && outs[k].transactionIdx == i;
      assert all[k] == outs[k];
    }
    if out.End? && out.transactionIdx == i {
      assert all[|outs|] == out;
    }
  }

  /**
   * What the status of transaction `i` says about the reports: it never ran
   * exactly when nothing names it, it completed exactly when an End names it,
   * its start comes from a Start report, and a completed one ended no earlier
   * than it started, with its End report's end and results.
   */
  ghost predicate StatusAgrees(outs: seq<TransactionOutput>, st: TransactionStatus, i: nat)
  {
    && (st.NeverRan? <==> !Mentioned(outs, i))
    && (st.Completed? <==> Ended(outs, i))
    && (!st.NeverRan? ==> Start(i, st.start) in outs)
    && (st.Completed? ==> st.start <= st.end && End(i, st.end, st.getResults) in outs)
  }

  /** Every Start report is the start its transaction's status keeps. */
  ghost predicate StartsAgree(outs: seq<TransactionOutput>, statuses: seq<TransactionStatus>)
  {
    forall k | 0 <= k < |outs| && outs[k].Start? ::
      outs[k].transactionIdx < |statuses| && !statuses[outs[k].transactionIdx].NeverRan?
      && statuses[outs[k].transactionIdx].start == outs[k].start
  }

  ghost predicate Explains(outs: seq<TransactionOutput>, statuses: seq<TransactionStatus>)
  {
    && (forall i | 0 <= i < |statuses| :: StatusAgrees(outs, statuses[i], i))
    && StartsAgree(outs, statuses)
  }

  /** The statuses `main` ends with are the ones the reports explain. */
  lemma {:induction false} TrackExplains(n: nat, outs: seq<TransactionOutput>)
    ensures Track(n, outs).Some? ==> |Track(n, outs).value| == n && Explains(outs, Track(n, outs).value)
    decreases |outs|
  {
    if outs != [] && Track(n, outs).Some? {
      var init := outs[..|outs| - 1];
      var out := outs[|outs| - 1];
      assert outs == init + [out];
      TrackExplains(n, init);
      var before := Track(n, init).value;
      var after := Track(n, outs).value;
      var t := out.transactionIdx;
      if out.Start? {
        assert StatusAgrees(init, before[t], t);
        assert !Mentioned(init, t);
      }
      forall i | 0 <= i < |after|
        ensures StatusAgrees(outs, after[i], i)
      {
        MentionedSnoc(init, out, i);
        assert StatusAgrees(init, before[i], i);
      }
      forall k | 0 <= k < |outs| && outs[k].Start?
        ensures outs[k].transactionIdx < |after| && !after[outs[k].transactionIdx].NeverRan?
        ensures after[outs[k].transactionIdx].start == outs[k].start
      {
        if k < |init| {
          assert outs[k] == init[k];
        }
      }
    }
  }

  /** The reports that make `main` panic, stated on the reports alone. */
  ghost predicate Panics(n: nat, outs: seq<TransactionOutput>, out: TransactionOutput)
  {
    || out.transactionIdx >= n
    || (out.Start? && Mentioned(outs, out.transactionIdx))
    || (out.End? &&
         (|| !Mentioned(outs, out.transactionIdx)
          || Ended(outs, out.transactionIdx)
          || exists k | 0 <= k < |outs| ::
               outs[k].Start? && outs[k].transactionIdx == out.transactionIdx && out.end < outs[k].start))
  }

  /**
   * A report panics exactly when it names no transaction, starts one a second
   * time, or ends one that never started, already ended, or started later.
   */
  lemma TrackStep(n: nat, outs: seq<TransactionOutput>, out: TransactionOutput)
    requires Track(n, outs).Some?
    ensures Track(n, outs + [out]).None? <==> Panics(n, outs, out)
  {
    assert (outs + [out])[..|outs|] == outs;
    TrackExplains(n, outs);
    var statuses := Track(n, outs).value;
    var i := out.transactionIdx;
    if i < n {
      assert StatusAgrees(outs, statuses[i], i);
      if out.End? && statuses[i].Crashed? && out.end < statuses[i].start {
        var k :| 0 <= k < |outs| && outs[k] == Start(i, statuses[i].start);
        assert outs[k].Start? && outs[k].transactionIdx == i && out.end < outs[k].start;
      }
    }
  }

  lemma {:induction false} TrackNoneExtends(n: nat, outs: seq<TransactionOutput>, j: nat)
    requires j <= |outs| && Track(n, outs[..j]).None?
    ensures Track(n, outs).None?
    decreases |outs|
  {
    if j < |outs| {
      var init := outs[..|outs| - 1];
      assert init[..j] == outs[..j];
      TrackNoneExtends(n, init, j);
    } else {
      assert outs[..j] == outs;
    }
  }

  /** One more report: `Track` and `MaxTimestamp` take one step from the shorter prefix. */
  lemma PrefixStep(n: nat, outs: seq<TransactionOutput>, i: nat)
    requires i < |outs|
    ensures Track(n, outs[..i + 1]) ==
      match Track(n, outs[..i]) case None => None case Some(statuses) => Step(statuses, outs[i])
    ensures MaxTimestamp(outs[..i + 1]) ==
      match MaxTimestamp(outs[..i])
      case None => Some(Timestamp(outs[i]))
      case Some(m) => if Timestamp(outs[i]) > m then Some(Timestamp(outs[i])) else Some(m)
  {
    assert outs[..i + 1][..i] == outs[..i];
  }

  /** The report loop of `main`: the statuses and `max_timestamp`, or a panic. */
  method TrackStatuses(n: nat, outs: seq<TransactionOutput>)
    returns (statuses: seq<TransactionStatus>, maxTimestamp: Option<U128>, ok: bool)
    ensures ok <==> Track(n, outs).Some?
    ensures ok ==> Track(n, outs) == Some(statuses) && maxTimestamp == MaxTimestamp(outs)
  {
    statuses := seq(n, _ => NeverRan);
    maxTimestamp := None;
    var i := 0;
    while i < |outs|
      invariant 0 <= i <= |outs|
      invariant Track(n, outs[..i]) == Some(statuses)
      invariant maxTimestamp == MaxTimestamp(outs[..i])
    {
      PrefixStep(n, outs, i);
      var out := outs[i];
      var t := Timestamp(out);
      if maxTimestamp.Some? {
        if t > maxTimestamp.value {
          maxTimestamp := Some(t);
        }
      } else {
        maxTimestamp := Some(t);
      }
      var idx := out.transactionIdx;
      if idx >= |statuses| {
        ok := false;
        TrackNoneExtends(n, outs, i + 1);
        return;
      }
      match out {
        case Start(_, start) =>
          if !statuses[idx].NeverRan? {
            ok := false;
            TrackNoneExtends(n, outs, i + 1);
            return;
          }
          statuses := statuses[idx := Crashed(start)];
        case End(_, end, results) =>
          if !statuses[idx].Crashed? || end < statuses[idx].start {
            ok := false;
            TrackNoneExtends(n, outs, i + 1);
            return;
          }
          statuses := statuses[idx := Completed(statuses[idx].start, end, results)];
      }
      i := i + 1;
    }
    assert outs[..i] == outs;
    ok := true;
  }

  // ---------------------------------------------------------------------------
  // The keys, and the point-read transaction
  // ---------------------------------------------------------------------------

  /** `all_keys`: every key an operation of the specs touches. */
  function AllKeys(specs: seq<TransactionSpec>): set<seq<Byte>>
  {
    set t, o | 0 <= t < |specs| && 0 <= o < |specs[t].ops| :: Key(specs[t].ops[o])
  }

  /** The keys of the transactions before `t`, and of the first `o` operations of transaction `t`. */
  ghost function KeysBefore(specs: seq<TransactionSpec>, t: nat, o: nat): set<seq<Byte>>
  {
    set t', o' | 0 <= t' < |specs| && 0 <= o' < |specs[t'].ops| && (t' < t || (t' == t && o' < o))
      :: Key(specs[t'].ops[o'])
  }

  lemma KeysBeforeStep(specs: seq<TransactionSpec>, t: nat, o: nat)
    requires t < |specs| && o < |specs[t].ops|
    ensures KeysBefore(specs, t, o + 1) == KeysBefore(specs, t, o) + {Key(specs[t].ops[o])}
  {
    assert Key(specs[t].ops[o]) in KeysBefore(specs, t, o + 1);
  }

  lemma KeysBeforeNext(specs: seq<TransactionSpec>, t: nat)
    requires t < |specs|
    ensures KeysBefore(specs, t + 1, 0) == KeysBefore(specs, t, |specs[t].ops|)
  {
  }

  lemma KeysBeforeAll(specs: seq<TransactionSpec>)
    ensures KeysBefore(specs, |specs|, 0) == AllKeys(specs)
    ensures KeysBefore(specs, 0, 0) == {}
  {
  }

  /** The loop building `all_keys`. */
  method CollectKeys(specs: seq<TransactionSpec>) returns (keys: set<seq<Byte>>)
    ensures keys == AllKeys(specs)
  {
    keys := {};
    KeysBeforeAll(specs);
    var t := 0;
    while t < |specs|
      invariant 0 <= t <= |specs|
      invariant keys == KeysBefore(specs, t, 0)
    {
      var ops := specs[t].ops;
      var o := 0;
      while o < |ops|
        invariant 0 <= o <= |ops|
        invariant keys == KeysBefore(specs, t, o)
      {
        KeysBeforeStep(specs, t, o);
        keys := keys + {Key(ops[o])};
        o := o + 1;
      }
      KeysBeforeNext(specs, t);
      t := t + 1;
    }
  }

  /** The loop over the recovered database's keys, in ascending order; false where it panics. */
  method NoKeyExNihilo(dbKeys: seq<seq<Byte>>, allKeys: set<seq<Byte>>) returns (ok: bool)
    ensures ok <==> forall i | 0 <= i < |dbKeys| :: dbKeys[i] in allKeys
  {
    var i := 0;
    while i < |dbKeys|
      invariant 0 <= i <= |dbKeys|
      invariant forall j | 0 <= j < i :: dbKeys[j] in allKeys
    {
      if dbKeys[i] !in allKeys {
        return false;
      }
      i := i + 1;
    }
    return true;
  }

  /** What `db.get` returns for `key`. */
  function DbGet(db: map<seq<Byte>, seq<Byte>>, key: seq<Byte>): Option<seq<Byte>>
  {
    if key in db then Some(db[key]) else None
  }

  /** The point-read transaction's spec and results: one Get per key, in the order given. */
  method BuildPointRead(keys: seq<seq<Byte>>, db: map<seq<Byte>, seq<Byte>>)
    returns (spec: TransactionSpec, getResults: seq<Option<seq<Byte>>>)
    ensures |spec.ops| == |getResults| == |keys|
    ensures forall j | 0 <= j < |keys| :: spec.ops[j] == Get(keys[j]) && getResults[j] == DbGet(db, keys[j])
  {
    var ops := [];
    getResults := [];
    var j := 0;
    while j < |keys|
      invariant 0 <= j <= |keys|
      invariant |ops| == |getResults| == j
      invariant forall i | 0 <= i < j :: ops[i] == Get(keys[i]) && getResults[i] == DbGet(db, keys[i])
    {
      getResults := getResults + [DbGet(db, keys[j])];
      ops := ops + [Get(keys[j])];
      j := j + 1;
    }
    spec := TransactionSpec(ops);
  }

  /**
   * The point read's timestamp, `max_timestamp.unwrap_or_default() * 11 / 10`
   * on `u128` with the multiplication wrapping. Without wrap-around it lies
   * strictly after every reported timestamp once the largest is at least 10.
   */
  function PointReadTimestamp(maxTimestamp: Option<U128>): (stamp: U128)
    ensures maxTimestamp.None? ==> stamp == 0
    ensures maxTimestamp.Some? && maxTimestamp.value * 11 < 0x1_0000_0000_0000_0000_0000_0000_0000_0000 ==>
      stamp >= maxTimestamp.value && (maxTimestamp.value >= 10 ==> stamp > maxTimestamp.value)
  {
    var m := if maxTimestamp.Some? then maxTimestamp.value else 0;
    ((m * 11) % 0x1_0000_0000_0000_0000_0000_0000_0000_0000) / 10
  }

  /** `zip`: pairs up the two sequences, as long as the shorter one. */
  function Zip(specs: seq<TransactionSpec>, statuses: seq<TransactionStatus>): (h: seq<Transaction>)
    ensures |h| == if |specs| < |statuses| then |specs| else |statuses|
    ensures forall t | 0 <= t < |h| :: h[t].0 == specs[t] && h[t].1 == statuses[t]
  {
    if specs == [] || statuses == [] then [] else [(specs[0], statuses[0])] + Zip(specs[1..], statuses[1..])
  }

  /**
   * The history handed to `check_history`: the specs with their statuses,
   * then the point read of every key in ascending order, as a transaction
   * that started and ended at `stamp`.
   */
  ghost predicate PointReadHistory(
    h: seq<Transaction>, specs: seq<TransactionSpec>, statuses: seq<TransactionStatus>,
    keys: seq<seq<Byte>>, db: map<seq<Byte>, seq<Byte>>, stamp: U128)
  {
    && |statuses| == |specs| && |h| == |specs| + 1
    && (forall t | 0 <= t < |specs| :: h[t] == (specs[t], statuses[t]))
    && LexSorted(keys) && (forall k :: k in keys <==> k in AllKeys(specs))
    && |h[|specs|].0.ops| == |keys|
    && (forall j | 0 <= j < |keys| :: h[|specs|].0.ops[j] == Get(keys[j]))
    && h[|specs|].1.Completed? && h[|specs|].1.start == stamp && h[|specs|].1.end == stamp
    && |h[|specs|].1.getResults| == |keys|
    && (forall j | 0 <= j < |keys| :: h[|specs|].1.getResults[j] == DbGet(db, keys[j]))
  }

  /** The specs paired with their statuses, then the point read, make up the history `main` checks. */
  lemma PointReadHistoryOf(
    h: seq<Transaction>, specs: seq<TransactionSpec>, statuses: seq<TransactionStatus>,
    spec: TransactionSpec, getResults: seq<Option<seq<Byte>>>,
    keys: seq<seq<Byte>>, db: map<seq<Byte>, seq<Byte>>, stamp: U128)
    requires |statuses| == |specs| && h == Zip(specs + [spec], statuses + [Completed(stamp, stamp, getResults)])
    requires LexSorted(keys) && (forall k :: k in keys <==> k in AllKeys(specs))
    requires |spec.ops| == |getResults| == |keys|
    requires forall j | 0 <= j < |keys| :: spec.ops[j] == Get(keys[j]) && getResults[j] == DbGet(db, keys[j])
    ensures PointReadHistory(h, specs, statuses, keys, db, stamp)
  {
    forall t | 0 <= t < |specs|
      ensures h[t] == (specs[t], statuses[t])
    {
      assert (specs + [spec])[t] == specs[t];
      assert (statuses + [Completed(stamp, stamp, getResults)])[t] == statuses[t];
    }
    assert h[|specs|] == (spec, Completed(stamp, stamp, getResults));
  }

  /**
   * The point read adds no key of its own: the keys of the checked history
   * are exactly the keys the workload's transactions touch, and they are the
   * point read's keys in `check_history`'s key order.
   */
  lemma PointReadKeys(
    h: seq<Transaction>, specs: seq<TransactionSpec>, statuses: seq<TransactionStatus>,
    keys: seq<seq<Byte>>, db: map<seq<Byte>, seq<Byte>>, stamp: U128,
    historyKeys: seq<seq<Byte>>)
    requires PointReadHistory(h, specs, statuses, keys, db, stamp)
    requires LexSorted(historyKeys) && (forall key :: key in historyKeys <==> key in HistoryKeys(h))
    ensures HistoryKeys(h) == AllKeys(specs)
    ensures historyKeys == keys
  {
    forall key | key in HistoryKeys(h) ensures key in AllKeys(specs) {
      var t, o :| 0 <= t < |h| && 0 <= o < |h[t].0.ops| && Key(h[t].0.ops[o]) == key;
      if t < |specs| {
        assert h[t].0 == specs[t];
      } else {
        assert h[t].0.ops[o] == Get(keys[o]);
        assert keys[o] in keys;
      }
    }
    forall key | key in AllKeys(specs) ensures key in HistoryKeys(h) {
      var t, o :| 0 <= t < |specs| && 0 <= o < |specs[t].ops| && Key(specs[t].ops[o]) == key;
      assert h[t].0 == specs[t];
    }
    LexSortedUnique(historyKeys, keys);
  }

  /** A Read among the contributions of `ps` shows up in the reads `Split` collects. */
  lemma {:induction false} SplitKeepsRead(h: seq<Transaction>, ps: seq<(nat, nat)>, i: nat)
    requires i < |ps| && ContributionAt(h, ps[i]).Some? && ContributionAt(h, ps[i]).value.Read?
    requires Split(h, ps).Some?
    ensures |Split(h, ps).value.0| > 0
    decreases |ps|
  {
    var init := ps[..|ps| - 1];
    if i < |init| {
      assert init[i] == ps[i];
      SplitKeepsRead(h, init, i);
    }
  }

  /**
   * Every key of the history is read by the point read, so `check_history`
   * never meets a key with neither reads nor writes: its `unreachable!()`
   * arm stays unreachable when called from `main`.
   */
  lemma PointReadCoversKeys(
    h: seq<Transaction>, specs: seq<TransactionSpec>, statuses: seq<TransactionStatus>,
    keys: seq<seq<Byte>>, db: map<seq<Byte>, seq<Byte>>, stamp: U128, key: seq<Byte>)
    requires PointReadHistory(h, specs, statuses, keys, db, stamp)
    requires key in HistoryKeys(h)
    ensures Split(h, Positions(h, key)).Some? ==> |Split(h, Positions(h, key)).value.0| > 0
  {
    var t, o :| 0 <= t < |h| && 0 <= o < |h[t].0.ops| && Key(h[t].0.ops[o]) == key;
    if t < |specs| {
      assert h[t].0 == specs[t];
      assert key in AllKeys(specs);
    } else {
      assert h[t].0.ops[o] == Get(keys[o]);
    }
    assert key in keys;
    var j :| 0 <= j < |keys| && keys[j] == key;
    var p: (nat, nat) := (|specs|, j);
    assert h[p.0].0.ops[p.1] == Get(keys[j]);
    PositionsComplete(h, key, p.0, p.1);
    var ps := Positions(h, key);
    var i :| 0 <= i < |ps| && ps[i] == p;
    assert ContributionAt(h, p) == Some(Read(KeyAccess(|specs|, DbGet(db, keys[j]))));
    if Split(h, ps).Some? {
      SplitKeepsRead(h, ps, i);
    }
  }

  /**
   * Once the largest timestamp is at least 10 and `* 11` does not wrap, every
   * completed transaction is ordered in real time before the point read.
   */
  lemma PointReadAfterCompleted(
    h: seq<Transaction>, specs: seq<TransactionSpec>, outs: seq<TransactionOutput>,
    keys: seq<seq<Byte>>, db: map<seq<Byte>, seq<Byte>>, t: nat)
    requires Track(|specs|, outs).Some?
    requires PointReadHistory(h, specs, Track(|specs|, outs).value, keys, db, PointReadTimestamp(MaxTimestamp(outs)))
    requires MaxTimestamp(outs).Some? ==>
      10 <= MaxTimestamp(outs).value && MaxTimestamp(outs).value * 11 < 0x1_0000_0000_0000_0000_0000_0000_0000_0000
    requires t < |specs| && h[t].1.Completed?
    ensures CH.RealTimeBefore(h, t, |specs|)
  {
    var statuses := Track(|specs|, outs).value;
    TrackExplains(|specs|, outs);
    assert h[t].1 == statuses[t];
    assert StatusAgrees(outs, statuses[t], t);
    var k :| 0 <= k < |outs| && outs[k] == End(t, statuses[t].end, statuses[t].getResults);
    MaxTimestampIsMax(outs);
    assert Timestamp(outs[k]) == h[t].1.end;
  }

  // ---------------------------------------------------------------------------
  // main
  // ---------------------------------------------------------------------------

  /** The run gets as far as `check_history`: specs were written, no report panics, no key appears ex nihilo. */
  ghost predicate ReachesCheck(specs: Option<seq<TransactionSpec>>, outs: seq<TransactionOutput>, db: map<seq<Byte>, seq<Byte>>)
  {
    && specs.Some?
    && Track(|specs.value|, outs).Some?
    && (forall k | k in db :: k in AllKeys(specs.value))
  }

  /**
   * `main` after the MonoSAT probe: `specs` is the first line of the
   * workload's output (`None` when it was not written), `outs` the reports
   * after it, and `db` the recovered database. The verdict is `Some(true)`
   * for success, `Some(false)` for a panic, and `None` when `to_cnf` runs
   * out of `fuel`.
   */
  method CheckRun(
    specs: Option<seq<TransactionSpec>>, outs: seq<TransactionOutput>, db: map<seq<Byte>, seq<Byte>>,
    monosat: string -> bool, fuel: nat)
    returns (verdict: Option<bool>, ghost h: seq<Transaction>, ghost keys: seq<seq<Byte>>,
             ghost dimacs: string, ghost g: GnfState, ghost cnfss: seq<seq<seq<Clause>>>)
    ensures specs.None? ==> verdict == Some(true)
    ensures specs.Some? && !ReachesCheck(specs, outs, db) ==> verdict == Some(false)
    ensures ReachesCheck(specs, outs, db) ==>
      PointReadHistory(h, specs.value, Track(|specs.value|, outs).value, keys, db,
                       PointReadTimestamp(MaxTimestamp(outs)))
    ensures ReachesCheck(specs, outs, db) && verdict == Some(true) ==> !CH.Rejected(h)
    ensures ReachesCheck(specs, outs, db) && verdict.Some? && !CH.Rejected(h) ==>
      verdict == Some(monosat(dimacs)) && dimacs == Dimacs(g) && CH.Built(h, g)
    ensures ReachesCheck(specs, outs, db) && verdict.Some? && !CH.Rejected(h) ==>
      HistoryKeys(h) == AllKeys(specs.value) && CH.Encoding(h, keys, cnfss) == Some(g)
  {
    h, keys, dimacs, cnfss := [], [], "", [];
    g := GnfState(0, [], 0, [], Variable(1));
    if specs.None? {
      return Some(true), h, keys, dimacs, g, cnfss;
    }
    var transactionSpecs := specs.value;
    var statuses, maxTimestamp, ok := TrackStatuses(|transactionSpecs|, outs);
    if !ok {
      return Some(false), h, keys, dimacs, g, cnfss;
    }
    TrackExplains(|transactionSpecs|, outs);
    var allKeys := CollectKeys(transactionSpecs);
    var dbKeys := SortedElements(db.Keys);
    ok := NoKeyExNihilo(dbKeys, allKeys);
    if !ok {
      return Some(false), h, keys, dimacs, g, cnfss;
    }
    var sortedKeys := SortedElements(allKeys);
    keys := sortedKeys;
    var pointReadSpec, getResults := BuildPointRead(sortedKeys, db);
    var stamp := PointReadTimestamp(maxTimestamp);
    var transactions := Zip(transactionSpecs + [pointReadSpec], statuses + [Completed(stamp, stamp, getResults)]);
    h := transactions;
    PointReadHistoryOf(h, transactionSpecs, statuses, pointReadSpec, getResults, sortedKeys, db, stamp);
    var checked, text, gs, historyKeys, blocks := CH.CheckHistory(transactions, monosat, fuel);
    verdict, dimacs, g, cnfss := checked, text, gs, blocks;
    if verdict.Some? && !CH.Rejected(h) {
      PointReadKeys(h, transactionSpecs, statuses, keys, db, stamp, historyKeys);
    }
  }
}
