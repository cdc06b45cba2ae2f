/**
 * The insert_loop recovery predicate. The workload keeps rewriting the keys
 * `0..CYCLE` with a value whose first four bytes are a round number, so a
 * recovered tree, read in key order, must show a run of values sharing the
 * first value's round number followed by values all one round lower.
 * The tree is its sequence of values in ascending key order.
 */
module InsertLoop {
  import opened Prelude
  import opened CommonUtils

  const CYCLE: nat := 256

  /** The round number the keys after the run must hold: one lower, wrapping to `CYCLE - 1` below 0. */
  function Expected(highest: U32): (low: U32)
    ensures low != highest
    ensures highest == 0 ==> low == CYCLE - 1
    ensures 0 < highest <= CYCLE ==> low == highest - 1
  {
    if highest == 0 then CYCLE - 1 else (highest - 1) % CYCLE
  }

  /** The value starts with the four big-endian bytes of `u`. */
  predicate Encodes(v: seq<Byte>, u: U32)
  {
    SliceToU32(v) == Some(u)
  }

  /** The first index from `i` on whose value does not start with `prefix` (a shorter value does not). */
  function PrefixRun(values: seq<seq<Byte>>, prefix: seq<Byte>, i: nat): (m: nat)
    requires i <= |values|
    ensures i <= m <= |values|
    ensures forall j | i <= j < m :: |values[j]| >= 4 && values[j][..4] == prefix
    ensures m < |values| ==> !(|values[m]| >= 4 && values[m][..4] == prefix)
    decreases |values| - i
  {
    if i == |values| || !(|values[i]| >= 4 && values[i][..4] == prefix) then i
    else PrefixRun(values, prefix, i + 1)
  }

  /**
   * The three phases of the check: the first value gives `highest`; the
   * values after it that share its prefix are counted; the first value that
   * does not must hold `Expected(highest)`, as must every value after it.
   * The result is `(count, highest, lowest)`, with `lowest` 0 when no value
   * differs; `None` where the source panics.
   */
  function Scan(values: seq<seq<Byte>>): (r: Option<(nat, U32, U32)>)
    ensures values == [] ==> r == Some((0, 0, 0))
  {
    if values == [] then Some((0, 0, 0))
    else
      match SliceToU32(values[0])
      case None => None
      case Some(highest) =>
        var m := PrefixRun(values, U32ToVec(highest), 1);
        if m == |values| then Some((m - 1, highest, 0))
        else if !Encodes(values[m], Expected(highest)) then None
        else if forall j | m < j < |values| :: Encodes(values[j], Expected(highest)) then
          Some((m - 1, highest, Expected(highest)))
        else None
  }

  /**
   * The shape a recovered tree must have: `m` values (at least one) holding
   * round `highest`, then only values holding `Expected(highest)`.
   */
  predicate TwoRuns(values: seq<seq<Byte>>, highest: U32, m: nat)
  {
    && 1 <= m <= |values|
    && (forall j | 0 <= j < m :: Encodes(values[j], highest))
    && (forall j | m <= j < |values| :: Encodes(values[j], Expected(highest)))
  }

  lemma EncodesPrefix(v: seq<Byte>, u: U32)
    ensures Encodes(v, u) <==> |v| >= 4 && v[..4] == U32ToVec(u)
  {
    if |v| >= 4 && v[..4] == U32ToVec(u) {
      DecodeEncodeU32(u, v[4..]);
      assert v == U32ToVec(u) + v[4..];
    }
  }

  /**
   * The check accepts exactly the empty tree and the trees of the two-run
   * shape, and then reports the first run's length less one and its round.
   */
  lemma ScanAcceptsTwoRuns(values: seq<seq<Byte>>)
    ensures Scan(values).Some? <==> values == [] || exists h: U32, m: nat :: TwoRuns(values, h, m)
    ensures forall h: U32, m: nat | TwoRuns(values, h, m) :: Scan(values).Some? && Scan(values).value.0 == m - 1 && Scan(values).value.1 == h
  {
    forall h: U32, m: nat | TwoRuns(values, h, m)
      ensures Scan(values).Some? && Scan(values).value.0 == m - 1 && Scan(values).value.1 == h
    {
      TwoRunsScan(values, h, m);
    }
    if values != [] && Scan(values).Some? {
      var h := SliceToU32(values[0]).value;
      var m := PrefixRun(values, U32ToVec(h), 1);
      forall j | 0 <= j < m ensures Encodes(values[j], h) {
        EncodesPrefix(values[j], h);
      }
      assert TwoRuns(values, h, m);
    }
  }

  lemma TwoRunsScan(values: seq<seq<Byte>>, h: U32, m: nat)
    requires TwoRuns(values, h, m)
    ensures Scan(values).Some? && Scan(values).value.0 == m - 1 && Scan(values).value.1 == h
  {
    assert SliceToU32(values[0]) == Some(h);
    var hv := U32ToVec(h);
    forall j | 1 <= j < m ensures |values[j]| >= 4 && values[j][..4] == hv {
      EncodesPrefix(values[j], h);
    }
    if m < |values| {
      EncodesPrefix(values[m], Expected(h));
      if U32ToVec(Expected(h)) == hv {
        U32ToVecInjective(Expected(h), h);
      }
    }
    PrefixRunAt(values, hv, 1, m);
  }

  lemma {:induction false} PrefixRunAt(values: seq<seq<Byte>>, prefix: seq<Byte>, i: nat, m: nat)
    requires i <= m <= |values|
    requires forall j | i <= j < m :: |values[j]| >= 4 && values[j][..4] == prefix
    requires m < |values| ==> !(|values[m]| >= 4 && values[m][..4] == prefix)
    ensures PrefixRun(values, prefix, i) == m
    decreases m - i
  {
    if i < m {
      PrefixRunAt(values, prefix, i + 1, m);
    }
  }

  /** `verify`'s result: `(contiguous, highest, wrap_count)`, with the u32 count wrapping. */
  function VerifyResult(values: seq<seq<Byte>>, wrapCount: Option<seq<Byte>>): Option<(U32, U32, U32)>
  {
    if values == [] then Some((0, 0, 0))
    else
      match Scan(values)
      case None => None
      case Some((contiguous, highest, _)) =>
        var count := contiguous % 0x1_0000_0000;
        match wrapCount
        case None => Some((count, highest, 0))
        case Some(w) =>
          match SliceToU32(w)
          case None => None
          case Some(c) => Some((count, highest, c))
  }

  /** A u32 counter that wraps keeps counting modulo 2^32. */
  lemma WrapStep(x: nat)
    ensures (x % 0x1_0000_0000 + 1) % 0x1_0000_0000 == (x + 1) % 0x1_0000_0000
  {
  }

  /**
   * `verify`: the tree's values in key order, and the value stored under
   * `WRAP_COUNT_KEY` in its own tree (`None` when absent).
   */
  method Verify(values: seq<seq<Byte>>, wrapCount: Option<seq<Byte>>) returns (r: Option<(U32, U32, U32)>)
    ensures r == VerifyResult(values, wrapCount)
  {
    if values == [] {
      return Some((0, 0, 0));
    }
    var scanned := ScanRuns(values);
    if scanned.None? {
      return None;
    }
    var (contiguous, highest) := scanned.value;
    var wrap: U32 := 0;
    if wrapCount.Some? {
      var w := SliceToU32(wrapCount.value);
      if w.None? {
        return None;
      }
      wrap := w.value;
    }
    return Some((contiguous, highest, wrap));
  }

  /** The three phases of `verify` on a non-empty tree: its u32 count and round, `None` on a panic. */
  method ScanRuns(values: seq<seq<Byte>>) returns (r: Option<(U32, U32)>)
    requires values != []
    ensures r.Some? <==> Scan(values).Some?
    ensures r.Some? ==> r.value == (Scan(values).value.0 % 0x1_0000_0000, Scan(values).value.1)
  {
    var first := SliceToU32(values[0]);
    if first.None? {
      return None;
    }
    var highest := first.value;
    var highestVec := U32ToVec(highest);
    var contiguous: U32 := 0;
    var i := 1;
    while i < |values| && |values[i]| >= 4 && values[i][..4] == highestVec
      invariant 1 <= i <= |values|
      invariant PrefixRun(values, highestVec, 1) == PrefixRun(values, highestVec, i)
      invariant contiguous == (i - 1) % 0x1_0000_0000
    {
      WrapStep(i - 1);
      contiguous := (contiguous + 1) % 0x1_0000_0000;
      i := i + 1;
    }
    ghost var m := i;
    if i < |values| {
      if |values[i]| < 4 {
        ScanRejectsAt(values, highest, m, i);
        return None;
      }
      var lowest := SliceToU32(values[i]).value;
      if Expected(highest) != lowest {
        ScanRejectsAt(values, highest, m, i);
        return None;
      }
      var bad := FirstMiss(values, i + 1, lowest);
      if bad < |values| {
        ScanRejectsAt(values, highest, m, bad);
        return None;
      }
      assert Encodes(values[m], lowest);
    }
    ScanAccepts(values, highest, m);
    return Some((contiguous, highest));
  }

  /** The last loop of the check: the first index from `from` on whose value does not hold `lowest`. */
  method FirstMiss(values: seq<seq<Byte>>, from: nat, lowest: U32) returns (bad: nat)
    requires from <= |values|
    ensures from <= bad <= |values|
    ensures forall j | from <= j < bad :: Encodes(values[j], lowest)
    ensures bad < |values| ==> !Encodes(values[bad], lowest)
  {
    bad := from;
    while bad < |values|
      invariant from <= bad <= |values|
      invariant forall j | from <= j < bad :: Encodes(values[j], lowest)
    {
      if SliceToU32(values[bad]) != Some(lowest) {
        return;
      }
      bad := bad + 1;
    }
  }

  /** The check fails at the first value after the run that misses `Expected(highest)`. */
  lemma ScanRejectsAt(values: seq<seq<Byte>>, highest: U32, m: nat, j: nat)
    requires values != [] && SliceToU32(values[0]) == Some(highest)
    requires m == PrefixRun(values, U32ToVec(highest), 1) && m <= j < |values|
    requires !Encodes(values[j], Expected(highest))
    ensures Scan(values).None?
  {
    var low := Expected(highest);
    if j > m {
      assert !(forall k | m < k < |values| :: Encodes(values[k], low));
    }
  }

  /** The check passes when every value after the run holds `Expected(highest)`. */
  lemma ScanAccepts(values: seq<seq<Byte>>, highest: U32, m: nat)
    requires values != [] && SliceToU32(values[0]) == Some(highest)
    requires m == PrefixRun(values, U32ToVec(highest), 1)
    requires forall j | m <= j < |values| :: Encodes(values[j], Expected(highest))
    ensures Scan(values) == Some((m - 1, highest, if m == |values| then 0 else Expected(highest)))
  {
  }
}
