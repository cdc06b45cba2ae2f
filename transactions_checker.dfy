/**
 * `check_history`: turns a transaction history into a MonoSAT problem whose
 * graph holds the real-time, read-dependency and anti-dependency edges between
 * transactions, and whose clauses say which of those edges must exist. The
 * history is strictly serializable exactly when MonoSAT finds the enabled
 * edges acyclic. Reads that no write can explain are rejected outright.
 */
module TransactionsChecker {
  import opened Prelude
  import opened Transactions
  import opened Cnf
  import opened MonosatGnf

  /** What the checker learnt about one transaction from the workload's output. */
  datatype TransactionStatus =
    | NeverRan
    | Crashed(start: U128)
    | Completed(start: U128, end: U128, getResults: seq<Option<seq<Byte>>>)

  type Transaction = (TransactionSpec, TransactionStatus)

  /** `KeyAccess`: a read or write of one key, with the value read or written (`None` for a removal). */
  datatype KeyAccess = KeyAccess(transactionIdx: nat, value: Option<seq<Byte>>)

  // ---------------------------------------------------------------------------
  // Which operations touch a key
  // ---------------------------------------------------------------------------

  /** The positions `(t, o)` among `ops` (transaction `t`) whose key is `key`, in order. */
  function OpPositions(ops: seq<Operation>, key: seq<Byte>, t: nat): seq<(nat, nat)>
  {
    if ops == [] then []
    else OpPositions(ops[..|ops| - 1], key, t) + (if Key(ops[|ops| - 1]) == key then [(t, |ops| - 1)] else [])
  }

  /** `key_to_tx_op[key]`: every position in the history whose operation touches `key`, in history order. */
  function Positions(h: seq<Transaction>, key: seq<Byte>): seq<(nat, nat)>
  {
    if h == [] then [] else Positions(h[..|h| - 1], key) + OpPositions(h[|h| - 1].0.ops, key, |h| - 1)
  }

  predicate ValidPosition(h: seq<Transaction>, p: (nat, nat))
  {
    p.0 < |h| && p.1 < |h[p.0].0.ops|
  }

  lemma {:induction false} OpPositionsSound(ops: seq<Operation>, key: seq<Byte>, t: nat)
    ensures forall i | 0 <= i < |OpPositions(ops, key, t)| ::
      var p := OpPositions(ops, key, t)[i]; p.0 == t && p.1 < |ops| && Key(ops[p.1]) == key
    decreases |ops|
  {
    if ops != [] {
      OpPositionsSound(ops[..|ops| - 1], key, t);
    }
  }

  lemma {:induction false} OpPositionsComplete(ops: seq<Operation>, key: seq<Byte>, t: nat, o: nat)
    requires o < |ops| && Key(ops[o]) == key
    ensures (t, o) in OpPositions(ops, key, t)
    decreases |ops|
  {
    if o < |ops| - 1 {
      OpPositionsComplete(ops[..|ops| - 1], key, t, o);
    }
  }

  /** Every recorded position is a real operation on that key. */
  lemma {:induction false} PositionsSound(h: seq<Transaction>, key: seq<Byte>)
    ensures forall i | 0 <= i < |Positions(h, key)| ::
      ValidPosition(h, Positions(h, key)[i]) && Key(h[Positions(h, key)[i].0].0.ops[Positions(h, key)[i].1]) == key
    decreases |h|
  {
    if h != [] {
      var init := h[..|h| - 1];
      PositionsSound(init, key);
      var last := OpPositions(h[|h| - 1].0.ops, key, |h| - 1);
      OpPositionsSound(h[|h| - 1].0.ops, key, |h| - 1);
      forall i | 0 <= i < |Positions(h, key)|
        ensures ValidPosition(h, Positions(h, key)[i]) && Key(h[Positions(h, key)[i].0].0.ops[Positions(h, key)[i].1]) == key
      {
        var p := Positions(h, key)[i];
        if i < |Positions(init, key)| {
          assert p == Positions(init, key)[i];
          assert h[p.0] == init[p.0];
        } else {
          assert p == last[i - |Positions(init, key)|];
        }
      }
    }
  }

  /** Every operation on the key is recorded. */
  lemma {:induction false} PositionsComplete(h: seq<Transaction>, key: seq<Byte>, t: nat, o: nat)
    requires t < |h| && o < |h[t].0.ops| && Key(h[t].0.ops[o]) == key
    ensures (t, o) in Positions(h, key)
    decreases |h|
  {
    if t == |h| - 1 {
      OpPositionsComplete(h[t].0.ops, key, t, o);
    } else {
      var init := h[..|h| - 1];
      assert h[t] == init[t];
      PositionsComplete(init, key, t, o);
    }
  }

  /** The keys the history touches: the keys of `key_to_tx_op`. */
  function HistoryKeys(h: seq<Transaction>): set<seq<Byte>>
  {
    set t, o | 0 <= t < |h| && 0 <= o < |h[t].0.ops| :: Key(h[t].0.ops[o])
  }

  // ---------------------------------------------------------------------------
  // Reads and writes of a key
  // ---------------------------------------------------------------------------

  /**
   * What the operation at `p` contributes: a Get of a Completed transaction
   * reads its result, an Insert or Remove of any transaction writes, and a Get
   * of a transaction that never ran or crashed contributes nothing. A Get whose
   * result is missing makes `get_results[op_idx]` panic (`None`), as would a
   * position outside the history (`PositionsSound` shows none is recorded).
   */
  datatype Contribution = Read(access: KeyAccess) | Write(access: KeyAccess) | Nothing

  function ContributionAt(h: seq<Transaction>, p: (nat, nat)): Option<Contribution>
  {
    if !ValidPosition(h, p) then None
    else match h[p.0].0.ops[p.1]
    case Get(_) =>
      (match h[p.0].1
       case Completed(_, _, results) =>
         if p.1 < |results| then Some(Read(KeyAccess(p.0, results[p.1]))) else None
       case _ => Some(Nothing))
    case Insert(_, value) => Some(Write(KeyAccess(p.0, Some(value))))
    case Remove(_) => Some(Write(KeyAccess(p.0, None)))
  }

  /** The reads and the writes at the positions `ps`, in order; `None` when one of them panics. */
  function Split(h: seq<Transaction>, ps: seq<(nat, nat)>): Option<(seq<KeyAccess>, seq<KeyAccess>)>
  {
    if ps == [] then Some(([], []))
    else
      match Split(h, ps[..|ps| - 1])
      case None => None
      case Some((readList, writeList)) =>
        match ContributionAt(h, ps[|ps| - 1])
        case None => None
        case Some(Read(a)) => Some((readList + [a], writeList))
        case Some(Write(a)) => Some((readList, writeList + [a]))
        case Some(Nothing) => Some((readList, writeList))
  }

  /** The collection loop for one key's positions. */
  method CollectAccesses(h: seq<Transaction>, ps: seq<(nat, nat)>) returns (readList: seq<KeyAccess>, writeList: seq<KeyAccess>, ok: bool)
    requires forall i | 0 <= i < |ps| :: ValidPosition(h, ps[i])
    ensures ok <==> Split(h, ps).Some?
    ensures ok ==> Split(h, ps) == Some((readList, writeList))
  {
    readList, writeList := [], [];
    var i := 0;
    while i < |ps|
      invariant 0 <= i <= |ps|
      invariant Split(h, ps[..i]) == Some((readList, writeList))
    {
      var (txIdx, opIdx) := ps[i];
      assert ps[..i + 1][..i] == ps[..i];
      match h[txIdx].0.ops[opIdx] {
        case Get(_) =>
          match h[txIdx].1 {
            case NeverRan =>
            case Crashed(_) =>
            case Completed(_, _, getResults) =>
              if opIdx >= |getResults| {
                assert Split(h, ps[..i + 1]).None?;
                SplitNoneExtends(h, ps, i + 1);
                assert ps[..|ps|] == ps;
                return readList, writeList, false;
              }
              readList := readList + [KeyAccess(txIdx, getResults[opIdx])];
          }
        case Insert(_, value) =>
          writeList := writeList + [KeyAccess(txIdx, Some(value))];
        case Remove(_) =>
          writeList := writeList + [KeyAccess(txIdx, None)];
      }
      i := i + 1;
    }
    assert ps[..i] == ps;
    ok := true;
  }

  /** Once a prefix panics, so does every longer prefix. */
  lemma {:induction false} SplitNoneExtends(h: seq<Transaction>, ps: seq<(nat, nat)>, n: nat)
    requires forall i | 0 <= i < |ps| :: ValidPosition(h, ps[i])
    requires n <= |ps| && Split(h, ps[..n]).None?
    ensures Split(h, ps[..|ps|]).None?
    decreases |ps| - n
  {
    if n < |ps| {
      assert ps[..n + 1][..n] == ps[..n];
      SplitNoneExtends(h, ps, n + 1);
    }
  }

  // ---------------------------------------------------------------------------
  // The key map
  // ---------------------------------------------------------------------------

  function Lookup(m: map<seq<Byte>, seq<(nat, nat)>>, key: seq<Byte>): seq<(nat, nat)>
  {
    if key in m then m[key] else []
  }

  /** `m` holds an entry exactly for the keys it maps to some position. */
  ghost predicate EntriesNonEmpty(m: map<seq<Byte>, seq<(nat, nat)>>)
  {
    forall key :: key in m <==> Lookup(m, key) != []
  }

  /** The loop that fills `key_to_tx_op`: entry by entry, `or_default().push`. */
  method BuildKeyMap(h: seq<Transaction>) returns (m: map<seq<Byte>, seq<(nat, nat)>>)
    ensures forall key :: Lookup(m, key) == Positions(h, key)
    ensures EntriesNonEmpty(m)
  {
    m := map[];
    var t := 0;
    while t < |h|
      invariant 0 <= t <= |h|
      invariant forall key :: Lookup(m, key) == Positions(h[..t], key)
      invariant EntriesNonEmpty(m)
    {
      ghost var before := m;
      m := AddTransaction(m, h[t].0.ops, t);
      assert h[..t + 1][..t] == h[..t];
      forall key ensures Lookup(m, key) == Positions(h[..t + 1], key) {
        assert Lookup(m, key) == Lookup(before, key) + OpPositions(h[t].0.ops, key, t);
      }
      t := t + 1;
    }
    assert h[..t] == h;
  }

  /** The inner loop: records the positions of one transaction's operations. */
  method AddTransaction(m0: map<seq<Byte>, seq<(nat, nat)>>, ops: seq<Operation>, t: nat)
    returns (m: map<seq<Byte>, seq<(nat, nat)>>)
    requires EntriesNonEmpty(m0)
    ensures forall key :: Lookup(m, key) == Lookup(m0, key) + OpPositions(ops, key, t)
    ensures EntriesNonEmpty(m)
  {
    m := m0;
    var o := 0;
    while o < |ops|
      invariant 0 <= o <= |ops|
      invariant forall key :: Lookup(m, key) == Lookup(m0, key) + OpPositions(ops[..o], key, t)
      invariant EntriesNonEmpty(m)
    {
      PushStep(m, m0, ops, o, t);
      var key := Key(ops[o]);
      m := m[key := Lookup(m, key) + [(t, o)]];
      o := o + 1;
    }
    assert ops[..o] == ops;
  }

  lemma PushStep(before: map<seq<Byte>, seq<(nat, nat)>>, m0: map<seq<Byte>, seq<(nat, nat)>>, ops: seq<Operation>, o: nat, t: nat)
    requires o < |ops|
    requires forall k :: Lookup(before, k) == Lookup(m0, k) + OpPositions(ops[..o], k, t)
    requires EntriesNonEmpty(before)
    ensures var key := Key(ops[o]);
      var m := before[key := Lookup(before, key) + [(t, o)]];
      (forall k :: Lookup(m, k) == Lookup(m0, k) + OpPositions(ops[..o + 1], k, t)) && EntriesNonEmpty(m)
  {
    var key := Key(ops[o]);
    var m := before[key := Lookup(before, key) + [(t, o)]];
    forall k ensures Lookup(m, k) == Lookup(m0, k) + OpPositions(ops[..o + 1], k, t) {
      PushKey(before, m0, ops, o, t, k);
    }
    forall k ensures k in m <==> Lookup(m, k) != [] {
      if k != key {
        assert Lookup(m, k) == Lookup(before, k);
      }
    }
  }

  /** `PushStep` for one key. */
  lemma PushKey(before: map<seq<Byte>, seq<(nat, nat)>>, m0: map<seq<Byte>, seq<(nat, nat)>>, ops: seq<Operation>,
                o: nat, t: nat, k: seq<Byte>)
    requires o < |ops|
    requires Lookup(before, k) == Lookup(m0, k) + OpPositions(ops[..o], k, t)
    ensures var key := Key(ops[o]);
      var m := before[key := Lookup(before, key) + [(t, o)]];
      Lookup(m, k) == Lookup(m0, k) + OpPositions(ops[..o + 1], k, t)
  {
    var key := Key(ops[o]);
    var m := before[key := Lookup(before, key) + [(t, o)]];
    var extra := if key == k then [(t, o)] else [];
    assert OpPositions(ops[..o + 1], k, t) == OpPositions(ops[..o], k, t) + extra by {
      assert ops[..o + 1][..o] == ops[..o];
    }
    assert Lookup(m, k) == Lookup(before, k) + extra;
    assert Lookup(m0, k) + OpPositions(ops[..o], k, t) + extra
      == Lookup(m0, k) + (OpPositions(ops[..o], k, t) + extra);
  }

  /** The keys of `key_to_tx_op` are exactly the keys some operation of the history touches. */
  lemma HistoryKeysArePositions(h: seq<Transaction>, key: seq<Byte>)
    ensures key in HistoryKeys(h) <==> Positions(h, key) != []
  {
    if key in HistoryKeys(h) {
      var t, o :| 0 <= t < |h| && 0 <= o < |h[t].0.ops| && Key(h[t].0.ops[o]) == key;
      PositionsComplete(h, key, t, o);
    }
    if Positions(h, key) != [] {
      PositionsSound(h, key);
      var p := Positions(h, key)[0];
      assert Key(h[p.0].0.ops[p.1]) == key;
    }
  }
}
