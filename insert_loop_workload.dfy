/**
 * `insert_loop_workload`: a counter `hu` below `CYCLE * CYCLE` is bumped
 * before every insert; the key is `hu mod CYCLE` and the value starts with
 * the round `hu / CYCLE`, both as four big-endian bytes, followed by random
 * zero padding. The database is a map from keys to values, starting empty;
 * its iteration order is ascending key order.
 */
module InsertLoopWorkload {
  import opened Prelude
  import opened CommonUtils
  import opened InsertLoop

  const DEFAULT_LOOP_COUNT: nat := CYCLE * 10

  /** The number of counter values, `CYCLE * CYCLE`. */
  const PERIOD: nat := CYCLE * CYCLE

  // ---------------------------------------------------------------------------
  // The loop count argument
  // ---------------------------------------------------------------------------

  /** The loop count: the default for a missing or empty argument, `None` (exit status 1) for one that does not parse. */
  function LoopCount(argument: Option<string>): (r: Option<nat>)
    ensures argument.None? || argument == Some("") ==> r == Some(DEFAULT_LOOP_COUNT)
    ensures argument.Some? && argument.value != "" ==> r == ParseUsize(argument.value)
  {
    match argument
    case None => Some(DEFAULT_LOOP_COUNT)
    case Some(a) => if a == "" then Some(DEFAULT_LOOP_COUNT) else ParseUsize(a)
  }

  // ---------------------------------------------------------------------------
  // The insert schedule
  // ---------------------------------------------------------------------------

  /** The insert issued for counter value `hu` and `padding` zero bytes. */
  function InsertAt(hu: nat, padding: nat): (seq<Byte>, seq<Byte>)
    requires hu < PERIOD
  {
    (U32ToVec(hu % CYCLE), U32ToVec(hu / CYCLE) + seq(padding, _ => 0))
  }

  /**
   * The key reads back as `hu mod CYCLE`, below `CYCLE`; the value reads back
   * as the round `hu / CYCLE` and is followed by `padding` zero bytes.
   */
  lemma InsertAtShape(hu: nat, padding: nat)
    requires hu < PERIOD
    ensures var kv := InsertAt(hu, padding);
      && |kv.0| == 4 && SliceToU32(kv.0) == Some(hu % CYCLE) && hu % CYCLE < CYCLE
      && Encodes(kv.1, hu / CYCLE)
      && |kv.1| == 4 + padding && (forall i | 4 <= i < |kv.1| :: kv.1[i] == 0)
  {
    var kv := InsertAt(hu, padding);
    DecodeEncodeU32(hu % CYCLE, []);
    assert kv.0 + [] == kv.0;
    DecodeEncodeU32(hu / CYCLE, seq(padding, _ => 0));
  }

  /**
   * The workload's loop: `loopCount` inserts, the `i`-th for counter value
   * `(i + 1) mod CYCLE²`, since `hu` goes back to 0 when its round reaches
   * `CYCLE`. `padding` holds the random padding lengths, one per insert.
   */
  method RunInserts(loopCount: nat, padding: seq<nat>) returns (inserts: seq<(seq<Byte>, seq<Byte>)>)
    requires |padding| == loopCount
    requires forall i | 0 <= i < |padding| :: padding[i] < SEGMENT_SIZE / 3
    ensures |inserts| == loopCount
    ensures forall i | 0 <= i < loopCount :: inserts[i] == InsertAt((i + 1) % PERIOD, padding[i])
    ensures forall i | 0 <= i < loopCount :: 4 <= |inserts[i].1| < 4 + SEGMENT_SIZE / 3
  {
    var hu := 0;
    inserts := [];
    var i := 0;
    while i < loopCount
      invariant 0 <= i <= loopCount
      invariant hu == i % PERIOD
      invariant |inserts| == i
      invariant forall j | 0 <= j < i :: inserts[j] == InsertAt((j + 1) % PERIOD, padding[j])
      invariant forall j | 0 <= j < i :: 4 <= |inserts[j].1| < 4 + SEGMENT_SIZE / 3
    {
      CounterStep(i, hu);
      hu := hu + 1;
      if hu / CYCLE >= CYCLE {
        hu := 0;
      }
      var key := U32ToVec(hu % CYCLE);
      var value := U32ToVec(hu / CYCLE) + seq(padding[i], _ => 0);
      inserts := inserts + [(key, value)];
      i := i + 1;
    }
  }

  /** `hu += 1`, reset to 0 when its round reaches `CYCLE`, keeps `hu == i mod CYCLE²`. */
  lemma CounterStep(i: nat, hu: nat)
    requires hu == i % PERIOD
    ensures (if (hu + 1) / CYCLE >= CYCLE then 0 else hu + 1) == (i + 1) % PERIOD
  {
    if hu + 1 < PERIOD {
      assert (hu + 1) / CYCLE < CYCLE;
    }
  }

  /** The database after the inserts, applied in order to an empty one. */
  function Apply(inserts: seq<(seq<Byte>, seq<Byte>)>): map<seq<Byte>, seq<Byte>>
  {
    if inserts == [] then map[]
    else Apply(inserts[..|inserts| - 1])[inserts[|inserts| - 1].0 := inserts[|inserts| - 1].1]
  }

  // ---------------------------------------------------------------------------
  // The tree read in key order
  // ---------------------------------------------------------------------------

  /** The keys `0..CYCLE` sort as their numbers do, so the tree iterates them in ascending order. */
  lemma KeyOrder(k1: nat, k2: nat)
    requires k1 < k2 < CYCLE
    ensures LexLess(U32ToVec(k1), U32ToVec(k2))
  {
    var a, b := U32ToVec(k1), U32ToVec(k2);
    assert a == [0, 0, 0, k1] && b == [0, 0, 0, k2];
    assert LexLess([k1], [k2]);
    assert LexLess([0, k1], [0, k2]) by { assert [0, k1][1..] == [k1] && [0, k2][1..] == [k2]; }
    assert LexLess([0, 0, k1], [0, 0, k2]) by { assert [0, 0, k1][1..] == [0, k1] && [0, 0, k2][1..] == [0, k2]; }
    assert a[1..] == [0, 0, k1] && b[1..] == [0, 0, k2];
  }

  /** The values of the keys in `lo..hi`, in ascending key order. */
  function Values(db: map<seq<Byte>, seq<Byte>>, lo: nat, hi: nat): seq<seq<Byte>>
    requires hi <= CYCLE
    decreases hi
  {
    if hi <= lo then []
    else Values(db, lo, hi - 1) + (if U32ToVec(hi - 1) in db then [db[U32ToVec(hi - 1)]] else [])
  }

  /** What `verify` iterates over: the values of every key the workload writes, in key order. */
  function TreeValues(db: map<seq<Byte>, seq<Byte>>): seq<seq<Byte>>
  {
    Values(db, 0, CYCLE)
  }

  lemma {:induction false} ValuesSplit(db: map<seq<Byte>, seq<Byte>>, lo: nat, mid: nat, hi: nat)
    requires lo <= mid <= hi <= CYCLE
    ensures Values(db, lo, hi) == Values(db, lo, mid) + Values(db, mid, hi)
    decreases hi
  {
    if mid < hi {
      ValuesSplit(db, lo, mid, hi - 1);
    }
  }

  lemma {:induction false} ValuesEncode(db: map<seq<Byte>, seq<Byte>>, lo: nat, hi: nat, u: U32)
    requires hi <= CYCLE
    requires forall k | lo <= k < hi && U32ToVec(k) in db :: Encodes(db[U32ToVec(k)], u)
    ensures forall j | 0 <= j < |Values(db, lo, hi)| :: Encodes(Values(db, lo, hi)[j], u)
    decreases hi
  {
    if lo < hi {
      ValuesEncode(db, lo, hi - 1, u);
    }
  }

  lemma {:induction false} ValuesAbsent(db: map<seq<Byte>, seq<Byte>>, lo: nat, hi: nat)
    requires hi <= CYCLE
    requires forall k | lo <= k < hi :: U32ToVec(k) !in db
    ensures Values(db, lo, hi) == []
    decreases hi
  {
    if lo < hi {
      ValuesAbsent(db, lo, hi - 1);
    }
  }

  // ---------------------------------------------------------------------------
  // What the database holds along the way
  // ---------------------------------------------------------------------------

  /**
   * The round key `k` holds once the counter is at `hu`, `cycled` telling
   * whether the counter has gone back to 0 before: the keys up to `hu mod
   * CYCLE` hold the current round, the others the previous one (`CYCLE - 1`
   * after a reset), and nothing is there yet in the first round.
   */
  function Want(hu: nat, cycled: bool, k: nat): Option<U32>
    requires hu < PERIOD
  {
    var q, r := hu / CYCLE, hu % CYCLE;
    if k <= r then (if q == 0 && !cycled && k == 0 then None else Some(q))
    else if q > 0 then Some(q - 1)
    else if cycled then Some(CYCLE - 1)
    else None
  }

  ghost predicate DbMatches(db: map<seq<Byte>, seq<Byte>>, hu: nat, cycled: bool)
    requires hu < PERIOD
  {
    KeysInRange(db) && HoldsWanted(db, hu, cycled)
  }

  /** Every key of the database is one of the keys `0..CYCLE`. */
  ghost predicate KeysInRange(db: map<seq<Byte>, seq<Byte>>)
  {
    forall key | key in db :: exists k | 0 <= k < CYCLE :: key == U32ToVec(k)
  }

  /** Key `k` is present exactly when `Want` gives it a round, and then holds that round. */
  predicate HoldsWanted(db: map<seq<Byte>, seq<Byte>>, hu: nat, cycled: bool)
    requires hu < PERIOD
  {
    forall k | 0 <= k < CYCLE ::
      && (U32ToVec(k) in db <==> Want(hu, cycled, k).Some?)
      && (U32ToVec(k) in db ==> Encodes(db[U32ToVec(k)], Want(hu, cycled, k).value))
  }

  /** The counter's next value, its round and its key. */
  lemma NextCounter(hu: nat)
    requires hu < PERIOD
    ensures var next := (hu + 1) % PERIOD;
      && (hu % CYCLE < CYCLE - 1 ==> next / CYCLE == hu / CYCLE && next % CYCLE == hu % CYCLE + 1 && next != 0)
      && (hu % CYCLE == CYCLE - 1 && hu / CYCLE < CYCLE - 1 ==> next / CYCLE == hu / CYCLE + 1 && next % CYCLE == 0 && next != 0)
      && (hu % CYCLE == CYCLE - 1 && hu / CYCLE == CYCLE - 1 ==> next == 0)
  {
    var q, r := hu / CYCLE, hu % CYCLE;
    assert hu == q * CYCLE + r;
    if r < CYCLE - 1 {
      assert hu + 1 == q * CYCLE + (r + 1) && hu + 1 < PERIOD;
    } else if q < CYCLE - 1 {
      assert hu + 1 == (q + 1) * CYCLE && hu + 1 < PERIOD;
    } else {
      assert hu + 1 == PERIOD;
    }
  }

  /** Keys other than the one written keep the round they should hold; the written one gets the new round. */
  lemma WantStep(hu: nat, cycled: bool, k: nat)
    requires hu < PERIOD && k < CYCLE
    ensures var next := (hu + 1) % PERIOD;
      && (k != next % CYCLE ==> Want(next, cycled || next == 0, k) == Want(hu, cycled, k))
      && (k == next % CYCLE ==> Want(next, cycled || next == 0, k) == Some(next / CYCLE))
  {
    NextCounter(hu);
  }

  /** One insert of the loop keeps the database as `Want` describes it. */
  lemma DbMatchesStep(db: map<seq<Byte>, seq<Byte>>, hu: nat, cycled: bool, next: nat, cycled': bool, padding: nat)
    requires hu < PERIOD && DbMatches(db, hu, cycled)
    requires next == (hu + 1) % PERIOD && cycled' == (cycled || next == 0)
    ensures var kv := InsertAt(next, padding);
      DbMatches(db[kv.0 := kv.1], next, cycled')
  {
    var kv := InsertAt(next, padding);
    InsertAtShape(next, padding);
    var db' := db[kv.0 := kv.1];
    var written := next % CYCLE;
    forall key | key in db'
      ensures exists k | 0 <= k < CYCLE :: key == U32ToVec(k)
    {
      if key == kv.0 {
        assert key == U32ToVec(written);
      }
    }
    forall k | 0 <= k < CYCLE
      ensures U32ToVec(k) in db' <==> Want(next, cycled', k).Some?
      ensures U32ToVec(k) in db' ==> Encodes(db'[U32ToVec(k)], Want(next, cycled', k).value)
    {
      WantStep(hu, cycled, k);
      if k == written {
        assert U32ToVec(k) == kv.0;
      } else {
        if U32ToVec(k) == kv.0 {
          U32ToVecInjective(k, written);
        }
        assert U32ToVec(k) != kv.0;
      }
    }
  }

  /** The keys up to `hu mod CYCLE` hold the counter's round, the others `Expected` of it, when they hold anything. */
  lemma WantRuns(hu: nat, cycled: bool, k: nat)
    requires hu < PERIOD && k < CYCLE
    ensures k <= hu % CYCLE && Want(hu, cycled, k).Some? ==> Want(hu, cycled, k) == Some(hu / CYCLE)
    ensures k > hu % CYCLE && Want(hu, cycled, k).Some? ==> Want(hu, cycled, k) == Some(Expected(hu / CYCLE))
    ensures k == hu % CYCLE && !(hu == 0 && !cycled) ==> Want(hu, cycled, k).Some?
  {
  }

  lemma DbRuns(db: map<seq<Byte>, seq<Byte>>, hu: nat, cycled: bool)
    requires hu < PERIOD && DbMatches(db, hu, cycled) && !(hu == 0 && !cycled)
    ensures forall k | 0 <= k <= hu % CYCLE && U32ToVec(k) in db :: Encodes(db[U32ToVec(k)], hu / CYCLE)
    ensures forall k | hu % CYCLE < k < CYCLE && U32ToVec(k) in db :: Encodes(db[U32ToVec(k)], Expected(hu / CYCLE))
    ensures U32ToVec(hu % CYCLE) in db
  {
    forall k | 0 <= k < CYCLE && U32ToVec(k) in db
      ensures k <= hu % CYCLE ==> Encodes(db[U32ToVec(k)], hu / CYCLE)
      ensures k > hu % CYCLE ==> Encodes(db[U32ToVec(k)], Expected(hu / CYCLE))
    {
      WantRuns(hu, cycled, k);
    }
    WantRuns(hu, cycled, hu % CYCLE);
  }

  /** A database as `Want` describes it is accepted by the recovery check. */
  lemma DbMatchesAccepted(db: map<seq<Byte>, seq<Byte>>, hu: nat, cycled: bool)
    requires hu < PERIOD && DbMatches(db, hu, cycled)
    ensures Scan(TreeValues(db)).Some?
  {
    if hu == 0 && !cycled {
      EmptyTree(db, hu, cycled);
    } else {
      DbRuns(db, hu, cycled);
      RunsAccepted(db, hu / CYCLE, hu % CYCLE);
    }
  }

  /** In the first round before any insert, the tree holds none of the keys. */
  lemma EmptyTree(db: map<seq<Byte>, seq<Byte>>, hu: nat, cycled: bool)
    requires hu == 0 && !cycled && DbMatches(db, hu, cycled)
    ensures TreeValues(db) == []
  {
    forall k | 0 <= k < CYCLE ensures U32ToVec(k) !in db {
      assert Want(hu, cycled, k).None?;
    }
    ValuesAbsent(db, 0, CYCLE);
  }

  /** Keys up to `r` holding round `q` and the later ones `Expected(q)`, with key `r` present: accepted. */
  lemma RunsAccepted(db: map<seq<Byte>, seq<Byte>>, q: U32, r: nat)
    requires r < CYCLE && U32ToVec(r) in db
    requires forall k | 0 <= k <= r && U32ToVec(k) in db :: Encodes(db[U32ToVec(k)], q)
    requires forall k | r < k < CYCLE && U32ToVec(k) in db :: Encodes(db[U32ToVec(k)], Expected(q))
    ensures Scan(TreeValues(db)).Some?
  {
    ValuesSplit(db, 0, r + 1, CYCLE);
    var first, rest := Values(db, 0, r + 1), Values(db, r + 1, CYCLE);
    ValuesEncode(db, 0, r + 1, q);
    ValuesEncode(db, r + 1, CYCLE, Expected(q));
    assert |first| >= 1;
    ConcatTwoRuns(first, rest, q);
    ScanAcceptsTwoRuns(TreeValues(db));
  }

  lemma ConcatTwoRuns(first: seq<seq<Byte>>, rest: seq<seq<Byte>>, q: U32)
    requires |first| >= 1
    requires forall j | 0 <= j < |first| :: Encodes(first[j], q)
    requires forall j | 0 <= j < |rest| :: Encodes(rest[j], Expected(q))
    ensures TwoRuns(first + rest, q, |first|)
  {
    var values := first + rest;
    forall j | 0 <= j < |first| ensures Encodes(values[j], q) {
      assert values[j] == first[j];
    }
    forall j | |first| <= j < |values| ensures Encodes(values[j], Expected(q)) {
      assert values[j] == rest[j - |first|];
    }
  }

  lemma CountStep(p: nat)
    requires p > 0
    ensures ((p - 1) % PERIOD + 1) % PERIOD == p % PERIOD
    ensures (p - 1 >= PERIOD || p % PERIOD == 0) == (p >= PERIOD)
  {
  }

  /** `inserts` is the start of the loop's inserts with paddings `padding`. */
  predicate Scheduled(inserts: seq<(seq<Byte>, seq<Byte>)>, padding: seq<nat>)
  {
    && |inserts| <= |padding|
    && forall i | 0 <= i < |inserts| :: inserts[i] == InsertAt((i + 1) % PERIOD, padding[i])
  }

  lemma {:induction false} PrefixMatches(inserts: seq<(seq<Byte>, seq<Byte>)>, padding: seq<nat>, p: nat)
    requires Scheduled(inserts, padding)
    requires p <= |inserts|
    ensures DbMatches(Apply(inserts[..p]), p % PERIOD, p >= PERIOD)
    decreases p
  {
    if p > 0 {
      PrefixMatches(inserts, padding, p - 1);
      PrefixStep(inserts, padding, p - 1, p);
    } else {
      EmptyMatches();
      assert inserts[..p] == [];
      assert Apply(inserts[..p]) == map[];
    }
  }

  /** Before the first insert the database is empty, as `Want` says for counter 0 in the first round. */
  lemma EmptyMatches()
    ensures DbMatches(map[], 0, false)
  {
  }

  /** The `p`-th insert takes the database of the first `p - 1` inserts to the one of the first `p`. */
  lemma PrefixStep(inserts: seq<(seq<Byte>, seq<Byte>)>, padding: seq<nat>, q: nat, p: nat)
    requires Scheduled(inserts, padding)
    requires p == q + 1 <= |inserts|
    requires DbMatches(Apply(inserts[..q]), q % PERIOD, q >= PERIOD)
    ensures DbMatches(Apply(inserts[..p]), p % PERIOD, p >= PERIOD)
  {
    var db := Apply(inserts[..q]);
    assert q == p - 1;
    ApplyPrefixStep(inserts, padding, p);
    MatchesAfter(db, p, padding[p - 1]);
  }

  lemma ApplyPrefixStep(inserts: seq<(seq<Byte>, seq<Byte>)>, padding: seq<nat>, p: nat)
    requires Scheduled(inserts, padding)
    requires 0 < p <= |inserts|
    ensures var kv := InsertAt(p % PERIOD, padding[p - 1]);
      Apply(inserts[..p]) == Apply(inserts[..p - 1])[kv.0 := kv.1]
  {
    assert inserts[..p][..p - 1] == inserts[..p - 1];
    assert inserts[..p][p - 1] == inserts[p - 1];
  }

  /** The step lemma restated for the `p`-th insert. */
  lemma MatchesAfter(db: map<seq<Byte>, seq<Byte>>, p: nat, padding: nat)
    requires p > 0 && DbMatches(db, (p - 1) % PERIOD, p - 1 >= PERIOD)
    ensures var kv := InsertAt(p % PERIOD, padding);
      DbMatches(db[kv.0 := kv.1], p % PERIOD, p >= PERIOD)
  {
    CountStep(p);
    DbMatchesStep(db, (p - 1) % PERIOD, p - 1 >= PERIOD, p % PERIOD, p >= PERIOD, padding);
  }

  /**
   * Whatever prefix of the workload's inserts reaches the database, the
   * recovery check of the library and of the checker accepts the result.
   */
  lemma PrefixesAccepted(inserts: seq<(seq<Byte>, seq<Byte>)>, padding: seq<nat>, p: nat)
    requires Scheduled(inserts, padding)
    requires p <= |inserts|
    ensures Scan(TreeValues(Apply(inserts[..p]))).Some?
  {
    PrefixMatches(inserts, padding, p);
    DbMatchesAccepted(Apply(inserts[..p]), p % PERIOD, p >= PERIOD);
  }

  /** Every key the workload writes is one of the keys `0..CYCLE`, so `TreeValues` misses none of them. */
  lemma PrefixKeys(inserts: seq<(seq<Byte>, seq<Byte>)>, padding: seq<nat>, p: nat)
    requires Scheduled(inserts, padding)
    requires p <= |inserts|
    ensures forall key | key in Apply(inserts[..p]) :: exists k | 0 <= k < CYCLE :: key == U32ToVec(k)
  {
    PrefixMatches(inserts, padding, p);
  }
}
