/**
 * `insert_loop_checker`'s `main`: the same three phases as the library's
 * `verify` without the count and the wrap counter. A failed assertion or an
 * out-of-range slice is a rejection.
 */
module InsertLoopChecker {
  import opened Prelude
  import opened CommonUtils
  import opened InsertLoop

  /** The checker's loops over the tree's values in key order; true when it returns `Ok`. */
  method CheckTree(values: seq<seq<Byte>>) returns (ok: bool)
    ensures ok <==> Scan(values).Some?
  {
    if values == [] {
      return true;
    }
    var first := SliceToU32(values[0]);
    if first.None? {
      return false;
    }
    var highest := first.value;
    var highestVec := U32ToVec(highest);
    var lowest: U32 := 0;
    var i := 1;
    while i < |values|
      invariant 1 <= i <= |values|
      invariant PrefixRun(values, highestVec, 1) == PrefixRun(values, highestVec, i)
    {
      if |values[i]| < 4 {
        return false;
      }
      if values[i][..4] != highestVec {
        break;
      }
      i := i + 1;
    }
    ghost var m := i;
    if i < |values| {
      var actual := SliceToU32(values[i]).value;
      if Expected(highest) != actual {
        return false;
      }
      lowest := actual;
      i := i + 1;
      while i < |values|
        invariant m < i <= |values|
        invariant forall j | m < j < i :: Encodes(values[j], lowest)
      {
        if SliceToU32(values[i]) != Some(lowest) {
          return false;
        }
        i := i + 1;
      }
    }
    return true;
  }

  /**
   * The checker accepts exactly the trees the library's `verify` accepts when
   * the wrap counter is absent or well formed, and exactly those of the
   * two-run shape.
   */
  lemma CheckerAgreesWithVerify(values: seq<seq<Byte>>, wrapCount: Option<seq<Byte>>)
    requires wrapCount.Some? ==> |wrapCount.value| >= 4
    ensures Scan(values).Some? <==> VerifyResult(values, wrapCount).Some?
    ensures Scan(values).Some? <==> values == [] || exists h: U32, m: nat :: TwoRuns(values, h, m)
  {
    ScanAcceptsTwoRuns(values);
  }
}
