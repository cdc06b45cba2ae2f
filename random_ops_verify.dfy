/**
 * `verify_against_reference`: after recovery, the keys of the sled tree, in
 * ascending order, are walked in step with the reference's entries, in
 * ascending key order. An entry whose versions are all present must be in the
 * tree, one whose versions are all absent is skipped, and an uncertain one may
 * or may not be there.
 */
module RandomOpsVerify {
  import opened Prelude
  import opened RandomOpsCodec
  import opened RandomOpsReference

  /** The key under which the workload stores its batch counter; the walk skips it. */
  const BATCH_COUNTER_KEY: seq<Byte> := Ascii("batch_counter")

  /** The reference's entries as its `BTreeMap` iterates them: key and versions. */
  type RefList = seq<(U16, seq<ReferenceVersion>)>

  predicate AllAbsent(vs: seq<ReferenceVersion>)
  {
    forall i | 0 <= i < |vs| :: vs[i].value.None?
  }

  predicate AllPresent(vs: seq<ReferenceVersion>)
  {
    forall i | 0 <= i < |vs| :: vs[i].value.Some?
  }

  /** The entries with keys `from` and up, in ascending key order. */
  function RefsFrom(m: Entries, from: nat): (r: RefList)
    decreases U16_LIMIT - from
  {
    if from >= U16_LIMIT then []
    else if from in m then [(from as U16, m[from].versions)] + RefsFrom(m, from + 1)
    else RefsFrom(m, from + 1)
  }

  /** Each listed entry is the map's, at a key from `from` on, and the keys ascend. */
  lemma {:induction false} RefsFromSound(m: Entries, from: nat)
    ensures forall i | 0 <= i < |RefsFrom(m, from)| ::
      RefsFrom(m, from)[i].0 in m && RefsFrom(m, from)[i].0 >= from
      && RefsFrom(m, from)[i].1 == m[RefsFrom(m, from)[i].0].versions
    ensures forall i, j | 0 <= i < j < |RefsFrom(m, from)| :: RefsFrom(m, from)[i].0 < RefsFrom(m, from)[j].0
    decreases U16_LIMIT - from
  {
    if from < U16_LIMIT {
      RefsFromSound(m, from + 1);
      var rest := RefsFrom(m, from + 1);
      var r := RefsFrom(m, from);
      if from in m {
        assert r == [(from as U16, m[from].versions)] + rest;
        assert forall i | 0 < i < |r| :: r[i] == rest[i - 1];
        forall i, j | 0 <= i < j < |r| ensures r[i].0 < r[j].0 {
          if i > 0 { assert r[i] == rest[i - 1] && r[j] == rest[j - 1]; }
          else { assert r[j] == rest[j - 1]; }
        }
      } else {
        assert r == rest;
      }
    }
  }

  /** Every key of the map from `from` on is listed. */
  lemma {:induction false} RefsFromComplete(m: Entries, from: nat, k: U16)
    requires k in m && k >= from
    ensures exists i | 0 <= i < |RefsFrom(m, from)| :: RefsFrom(m, from)[i].0 == k
    decreases U16_LIMIT - from
  {
    var r := RefsFrom(m, from);
    if k == from {
      assert r[0].0 == k;
    } else {
      RefsFromComplete(m, from + 1, k);
      var rest := RefsFrom(m, from + 1);
      var i :| 0 <= i < |rest| && rest[i].0 == k;
      if from in m {
        assert r[i + 1].0 == k;
      }
    }
  }

  /** `reference.map.iter()`. */
  function SortedRefs(m: Entries): RefList
  {
    RefsFrom(m, 0)
  }

  /** A tree key that the walk compares: not the batch counter's, and decoding to `k`. */
  predicate Found(key: seq<Byte>, k: U16)
  {
    key != BATCH_COUNTER_KEY && DecodeValue(key) == Some(k)
  }

  // ---------------------------------------------------------------------------
  // The walk
  // ---------------------------------------------------------------------------

  /**
   * The verdict of the walk on the remaining tree keys and reference entries;
   * false where it panics (on a failed assertion, or in `decode_value` on a
   * key it cannot read). `lenient` says what happens to a tree key that meets
   * the end of the reference: as written, the inner loop just ends and the key
   * is accepted (`lenient`); the corrected walk rejects it.
   */
  function Walk(tree: seq<seq<Byte>>, refs: RefList, lenient: bool): bool
    decreases |tree|, |refs|, 1
  {
    if tree == [] then forall i | 0 <= i < |refs| :: !AllPresent(refs[i].1)
    else if tree[0] == BATCH_COUNTER_KEY then Walk(tree[1..], refs, lenient)
    else match DecodeValue(tree[0])
      case None => false
      case Some(actual) => Seek(actual, tree[1..], refs, lenient)
  }

  /** The inner `while let` loop, looking for the entry that accounts for tree key `actual`. */
  function Seek(actual: U16, rest: seq<seq<Byte>>, refs: RefList, lenient: bool): bool
    decreases |rest| + 1, |refs|, 0
  {
    if refs == [] then lenient && Walk(rest, [], lenient)
    else
      var (k, vs) := refs[0];
      if AllAbsent(vs) then Seek(actual, rest, refs[1..], lenient)
      else if AllPresent(vs) then actual == k && Walk(rest, refs[1..], lenient)
      else if actual == k then Walk(rest, refs[1..], lenient)
      else if k > actual then false
      else Seek(actual, rest, refs[1..], lenient)
  }

  /** `verify_against_reference` as written. */
  function CheckTree(tree: seq<seq<Byte>>, refs: RefList): bool
  {
    Walk(tree, refs, true)
  }

  /** The walk with a tree key left over at the end of the reference rejected. */
  function CheckTreeStrict(tree: seq<seq<Byte>>, refs: RefList): bool
  {
    Walk(tree, refs, false)
  }

  /**
   * A key the reference says is certainly there: at least one version, all
   * present. (An empty version list counts as all absent in the walk, and is
   * skipped there; only the trailing loop, which sees the entries left after
   * the last tree key, takes it for present and rejects.)
   */
  predicate Required(vs: seq<ReferenceVersion>)
  {
    vs != [] && AllPresent(vs)
  }

  /** Either walk, when it accepts, has met every key the reference requires. */
  lemma {:induction false} WalkPresent(tree: seq<seq<Byte>>, refs: RefList, lenient: bool, i: nat)
    requires Walk(tree, refs, lenient) && i < |refs| && Required(refs[i].1)
    ensures exists j | 0 <= j < |tree| :: Found(tree[j], refs[i].0)
    decreases |tree|, |refs|, 1
  {
    if tree == [] {
    } else if tree[0] == BATCH_COUNTER_KEY {
      WalkPresent(tree[1..], refs, lenient, i);
      var j :| 0 <= j < |tree[1..]| && Found(tree[1..][j], refs[i].0);
      assert tree[j + 1] == tree[1..][j];
    } else {
      var actual := DecodeValue(tree[0]).value;
      SeekPresent(actual, tree[1..], refs, lenient, i);
      if actual != refs[i].0 {
        var j :| 0 <= j < |tree[1..]| && Found(tree[1..][j], refs[i].0);
        assert tree[j + 1] == tree[1..][j];
      }
    }
  }

  lemma {:induction false} SeekPresent(actual: U16, rest: seq<seq<Byte>>, refs: RefList, lenient: bool, i: nat)
    requires Seek(actual, rest, refs, lenient) && i < |refs| && Required(refs[i].1)
    ensures actual == refs[i].0 || exists j | 0 <= j < |rest| :: Found(rest[j], refs[i].0)
    decreases |rest| + 1, |refs|, 0
  {
    var (k, vs) := refs[0];
    if i == 0 {
      assert !AllAbsent(vs) by { assert vs[0].value.Some?; }
    } else if AllAbsent(vs) || (!AllPresent(vs) && actual != k) {
      SeekPresent(actual, rest, refs[1..], lenient, i - 1);
    } else {
      WalkPresent(rest, refs[1..], lenient, i - 1);
    }
  }

  /** An entry that may hold a value: not all of its versions are absent. */
  predicate Possible(vs: seq<ReferenceVersion>)
  {
    !AllAbsent(vs)
  }

  /** The corrected walk accepts only trees whose every key the reference allows. */
  lemma {:induction false} StrictKeysAllowed(tree: seq<seq<Byte>>, refs: RefList, j: nat)
    requires CheckTreeStrict(tree, refs) && j < |tree| && tree[j] != BATCH_COUNTER_KEY
    ensures exists i | 0 <= i < |refs| :: Found(tree[j], refs[i].0) && Possible(refs[i].1)
    decreases |tree|, |refs|, 1
  {
    if tree[0] == BATCH_COUNTER_KEY {
      StrictKeysAllowed(tree[1..], refs, j - 1);
    } else {
      var actual := DecodeValue(tree[0]).value;
      SeekKeysAllowed(actual, tree[1..], refs, j);
    }
  }

  lemma {:induction false} SeekKeysAllowed(actual: U16, rest: seq<seq<Byte>>, refs: RefList, j: nat)
    requires Seek(actual, rest, refs, false) && j <= |rest|
    requires j > 0 ==> rest[j - 1] != BATCH_COUNTER_KEY
    ensures j == 0 ==> exists i | 0 <= i < |refs| :: refs[i].0 == actual && Possible(refs[i].1)
    ensures j > 0 ==> exists i | 0 <= i < |refs| :: Found(rest[j - 1], refs[i].0) && Possible(refs[i].1)
    decreases |rest| + 1, |refs|, 0
  {
    var (k, vs) := refs[0];
    if AllAbsent(vs) || (!AllPresent(vs) && actual != k) {
      SeekKeysAllowed(actual, rest, refs[1..], j);
      if j == 0 {
        var i :| 0 <= i < |refs[1..]| && refs[1..][i].0 == actual && Possible(refs[1..][i].1);
        assert refs[i + 1] == refs[1..][i];
      } else {
        var i :| 0 <= i < |refs[1..]| && Found(rest[j - 1], refs[1..][i].0) && Possible(refs[1..][i].1);
        assert refs[i + 1] == refs[1..][i];
      }
    } else if j > 0 {
      StrictKeysAllowed(rest, refs[1..], j - 1);
      var i :| 0 <= i < |refs[1..]| && Found(rest[j - 1], refs[1..][i].0) && Possible(refs[1..][i].1);
      assert refs[i + 1] == refs[1..][i];
    }
  }

  /** The corrected walk rejects no more than the one as written would reject... */
  lemma {:induction false} StrictImpliesLenient(tree: seq<seq<Byte>>, refs: RefList)
    requires CheckTreeStrict(tree, refs)
    ensures CheckTree(tree, refs)
    decreases |tree|, |refs|, 1
  {
    if tree != [] {
      if tree[0] == BATCH_COUNTER_KEY {
        StrictImpliesLenient(tree[1..], refs);
      } else {
        SeekStrictImpliesLenient(DecodeValue(tree[0]).value, tree[1..], refs);
      }
    }
  }

  lemma {:induction false} SeekStrictImpliesLenient(actual: U16, rest: seq<seq<Byte>>, refs: RefList)
    requires Seek(actual, rest, refs, false)
    ensures Seek(actual, rest, refs, true)
    decreases |rest| + 1, |refs|, 0
  {
    var (k, vs) := refs[0];
    if AllAbsent(vs) || (!AllPresent(vs) && actual != k) {
      SeekStrictImpliesLenient(actual, rest, refs[1..]);
    } else {
      StrictImpliesLenient(rest, refs[1..]);
    }
  }

  /**
   * ... but the walk as written also accepts a tree holding a key that the
   * reference says must be absent, or has never heard of, once that key comes
   * after the last entry the walk can use.
   */
  lemma CheckTreeAcceptsUnexpectedKeys()
    ensures CheckTree([KeyBytes(5)], [(5, [ReferenceVersion(None, None)])])
    ensures !CheckTreeStrict([KeyBytes(5)], [(5, [ReferenceVersion(None, None)])])
    ensures CheckTree([KeyBytes(7)], [])
    ensures !CheckTreeStrict([KeyBytes(7)], [])
  {
    DecodeValueFactory(5);
    DecodeValueFactory(7);
    assert KeyBytes(5) != BATCH_COUNTER_KEY && KeyBytes(7) != BATCH_COUNTER_KEY;
    assert [KeyBytes(5)][1..] == [] && [KeyBytes(7)][1..] == [];
  }

  /** Every tree key other than the batch counter's decodes, so the walk never panics in `decode_value`. */
  predicate Decodable(tree: seq<seq<Byte>>)
  {
    forall j | 0 <= j < |tree| && tree[j] != BATCH_COUNTER_KEY :: DecodeValue(tree[j]).Some?
  }

  /** The tree holds no key but the batch counter's. */
  predicate OnlyCounter(tree: seq<seq<Byte>>)
  {
    forall j | 0 <= j < |tree| :: tree[j] == BATCH_COUNTER_KEY
  }

  /** Entries whose versions are all absent are sought past, as if the reference had ended. */
  lemma {:induction false} SeekPastAbsent(actual: U16, rest: seq<seq<Byte>>, refs: RefList, lenient: bool)
    requires forall i | 0 <= i < |refs| :: AllAbsent(refs[i].1)
    ensures Seek(actual, rest, refs, lenient) == Seek(actual, rest, [], lenient)
    decreases |refs|
  {
    if refs != [] {
      assert AllAbsent(refs[0].1);
      assert forall i | 0 <= i < |refs[1..]| :: refs[1..][i] == refs[i + 1];
      SeekPastAbsent(actual, rest, refs[1..], lenient);
    }
  }

  /**
   * Both walks against a reference whose entries are all absent (in
   * particular an exhausted one): a tree with a key other than the batch
   * counter's passes exactly when it decodes and the walk is the one as
   * written, which takes every key that meets the end of the reference; a tree
   * without one passes exactly when no entry is all present, as the trailing
   * loop reads an empty version list.
   */
  lemma {:induction false} WalkWithoutUsableEntries(tree: seq<seq<Byte>>, refs: RefList, lenient: bool)
    requires forall i | 0 <= i < |refs| :: AllAbsent(refs[i].1)
    ensures Walk(tree, refs, lenient) <==>
      Decodable(tree) && (if OnlyCounter(tree) then forall i | 0 <= i < |refs| :: !AllPresent(refs[i].1) else lenient)
    decreases |tree|
  {
    if tree != [] {
      var rest := tree[1..];
      assert forall j | 0 <= j < |rest| :: rest[j] == tree[j + 1];
      assert Decodable(tree) <==> (tree[0] == BATCH_COUNTER_KEY || DecodeValue(tree[0]).Some?) && Decodable(rest);
      if tree[0] == BATCH_COUNTER_KEY {
        WalkWithoutUsableEntries(rest, refs, lenient);
        assert OnlyCounter(tree) <==> OnlyCounter(rest);
      } else if DecodeValue(tree[0]).Some? {
        SeekPastAbsent(DecodeValue(tree[0]).value, rest, refs, lenient);
        WalkWithoutUsableEntries(rest, [], lenient);
        assert !OnlyCounter(tree);
      }
    }
  }

  /** The walk as written accepts any tree that decodes once the reference is exhausted. */
  lemma CheckTreeAfterReference(tree: seq<seq<Byte>>)
    ensures CheckTree(tree, []) <==> Decodable(tree)
    ensures CheckTreeStrict(tree, []) <==> OnlyCounter(tree)
  {
    WalkWithoutUsableEntries(tree, [], true);
    WalkWithoutUsableEntries(tree, [], false);
    if OnlyCounter(tree) {
      assert Decodable(tree);
    }
  }

  /**
   * What the walk as written still rules out for a tree key `a`: either an
   * entry for `a` may hold a value, or every entry above `a` is all absent. A
   * tree key below the next entry the walk can use fails the `assert_eq!`, so
   * a key is only let through once no later entry can decide it.
   */
  predicate Explained(a: U16, refs: RefList)
  {
    || (exists i | 0 <= i < |refs| :: refs[i].0 == a && Possible(refs[i].1))
    || (forall i | 0 <= i < |refs| && refs[i].0 > a :: AllAbsent(refs[i].1))
  }

  /** An entry that is all absent, or at or below `a`, does not change whether `a` is explained. */
  lemma ExplainedCons(a: U16, refs: RefList)
    requires refs != [] && Explained(a, refs[1..])
    requires AllAbsent(refs[0].1) || refs[0].0 <= a
    ensures Explained(a, refs)
  {
    if exists i | 0 <= i < |refs[1..]| :: refs[1..][i].0 == a && Possible(refs[1..][i].1) {
      var i :| 0 <= i < |refs[1..]| && refs[1..][i].0 == a && Possible(refs[1..][i].1);
      assert refs[i + 1] == refs[1..][i];
    } else {
      forall i | 0 <= i < |refs| && refs[i].0 > a ensures AllAbsent(refs[i].1) {
        if i > 0 { assert refs[i] == refs[1..][i - 1]; }
      }
    }
  }

  /** In sled's byte order, keys that decode do so in ascending order. */
  lemma DecodeMonotone(x: seq<Byte>, y: seq<Byte>)
    requires LexLess(x, y) && DecodeValue(x).Some? && DecodeValue(y).Some?
    ensures DecodeValue(x).value <= DecodeValue(y).value
  {
    if x[0] == y[0] && x[1] != y[1] {
      assert LexLess(x[1..], y[1..]);
      assert x[1..][0] == x[1] && y[1..][0] == y[1];
    }
  }

  /**
   * The walk as written, over a tree in sled's key order: every tree key other
   * than the batch counter's decodes and is explained by the reference.
   */
  lemma {:induction false} LenientKeysExplained(tree: seq<seq<Byte>>, refs: RefList, j: nat)
    requires CheckTree(tree, refs) && LexSorted(tree) && j < |tree| && tree[j] != BATCH_COUNTER_KEY
    ensures DecodeValue(tree[j]).Some? && Explained(DecodeValue(tree[j]).value, refs)
  {
    WalkExplained(tree, refs, j);
  }

  lemma {:induction false} WalkExplained(tree: seq<seq<Byte>>, refs: RefList, j: nat)
    requires Walk(tree, refs, true) && LexSorted(tree) && j < |tree| && tree[j] != BATCH_COUNTER_KEY
    ensures DecodeValue(tree[j]).Some? && Explained(DecodeValue(tree[j]).value, refs)
    decreases |tree|, |refs|, 1
  {
    var rest := tree[1..];
    assert forall m | 0 <= m < |rest| :: rest[m] == tree[m + 1];
    assert LexSorted(rest);
    if tree[0] == BATCH_COUNTER_KEY {
      WalkExplained(rest, refs, j - 1);
    } else {
      var actual := DecodeValue(tree[0]).value;
      forall m | 0 <= m < |rest| && DecodeValue(rest[m]).Some? ensures actual <= DecodeValue(rest[m]).value {
        DecodeMonotone(tree[0], tree[m + 1]);
      }
      SeekExplained(actual, rest, refs, j);
    }
  }

  lemma {:induction false} SeekExplained(actual: U16, rest: seq<seq<Byte>>, refs: RefList, j: nat)
    requires Seek(actual, rest, refs, true) && LexSorted(rest) && j <= |rest|
    requires j > 0 ==> rest[j - 1] != BATCH_COUNTER_KEY
    requires forall m | 0 <= m < |rest| && DecodeValue(rest[m]).Some? :: actual <= DecodeValue(rest[m]).value
    ensures j == 0 ==> Explained(actual, refs)
    ensures j > 0 ==> DecodeValue(rest[j - 1]).Some? && Explained(DecodeValue(rest[j - 1]).value, refs)
    decreases |rest| + 1, |refs|, 0
  {
    if refs == [] {
      if j > 0 { WalkExplained(rest, [], j - 1); }
    } else {
      var (k, vs) := refs[0];
      if AllAbsent(vs) || (!AllPresent(vs) && actual != k) {
        SeekExplained(actual, rest, refs[1..], j);
        if j == 0 {
          ExplainedCons(actual, refs);
        } else {
          ExplainedCons(DecodeValue(rest[j - 1]).value, refs);
        }
      } else if j == 0 {
        assert refs[0].0 == actual && Possible(refs[0].1);
      } else {
        WalkExplained(rest, refs[1..], j - 1);
        ExplainedCons(DecodeValue(rest[j - 1]).value, refs);
      }
    }
  }

  // ---------------------------------------------------------------------------
  // Completeness: a tree that agrees with the reference passes
  // ---------------------------------------------------------------------------

  /** The tree holding the keys of the picked entries, in the reference's order. */
  function TreeOf(refs: RefList, picks: seq<bool>): seq<seq<Byte>>
    requires |picks| == |refs|
  {
    if refs == [] then []
    else (if picks[0] then [KeyBytes(refs[0].0)] else []) + TreeOf(refs[1..], picks[1..])
  }

  /** A choice of entries that holds every required key and no key that must be absent. */
  predicate Agrees(refs: RefList, picks: seq<bool>)
  {
    && |picks| == |refs|
    && (forall i | 0 <= i < |refs| :: AllPresent(refs[i].1) ==> picks[i])
    && (forall i | 0 <= i < |refs| :: AllAbsent(refs[i].1) ==> !picks[i])
  }

  predicate KeysAscending(refs: RefList)
  {
    forall i, j | 0 <= i < j < |refs| :: refs[i].0 < refs[j].0
  }

  /** The first key of such a tree is a picked entry's. */
  lemma {:induction false} TreeOfHead(refs: RefList, picks: seq<bool>)
    requires |picks| == |refs| && TreeOf(refs, picks) != []
    ensures exists i | 0 <= i < |refs| :: picks[i] && TreeOf(refs, picks)[0] == KeyBytes(refs[i].0)
  {
    if !picks[0] {
      TreeOfHead(refs[1..], picks[1..]);
      var i :| 0 <= i < |refs[1..]| && picks[1..][i] && TreeOf(refs[1..], picks[1..])[0] == KeyBytes(refs[1..][i].0);
      assert picks[i + 1] && refs[i + 1] == refs[1..][i];
    }
  }

  /** The corrected walk, and so the one as written, accepts every tree that agrees with the reference. */
  lemma AgreeingTreePasses(refs: RefList, picks: seq<bool>)
    requires KeysAscending(refs) && Agrees(refs, picks)
    ensures CheckTreeStrict(TreeOf(refs, picks), refs)
    ensures CheckTree(TreeOf(refs, picks), refs)
  {
    AgreeingTreePassesStrict(refs, picks);
    StrictImpliesLenient(TreeOf(refs, picks), refs);
  }

  lemma {:induction false} AgreeingTreePassesStrict(refs: RefList, picks: seq<bool>)
    requires KeysAscending(refs) && Agrees(refs, picks)
    ensures CheckTreeStrict(TreeOf(refs, picks), refs)
  {
    if refs != [] {
      AgreeingTreePassesStrict(refs[1..], picks[1..]);
      AgreeingStep(refs, picks);
    }
  }

  /** An agreeing tree passes once the tree of the reference's tail does. */
  lemma AgreeingStep(refs: RefList, picks: seq<bool>)
    requires KeysAscending(refs) && Agrees(refs, picks) && refs != []
    requires CheckTreeStrict(TreeOf(refs[1..], picks[1..]), refs[1..])
    ensures CheckTreeStrict(TreeOf(refs, picks), refs)
  {
    var rest := TreeOf(refs[1..], picks[1..]);
    if picks[0] {
      PickedStep(refs, picks, rest);
    } else {
      assert TreeOf(refs, picks) == rest;
      if rest != [] {
        TreeOfHead(refs[1..], picks[1..]);
        var i :| 0 <= i < |refs[1..]| && picks[1..][i] && rest[0] == KeyBytes(refs[1..][i].0);
        assert refs[i + 1] == refs[1..][i];
        SkippedStep(refs, rest, refs[i + 1].0);
      }
    }
  }

  /** A picked first entry's key is the tree's first key, and the walk moves past both. */
  lemma PickedStep(refs: RefList, picks: seq<bool>, rest: seq<seq<Byte>>)
    requires Agrees(refs, picks) && refs != [] && picks[0]
    requires rest == TreeOf(refs[1..], picks[1..]) && Walk(rest, refs[1..], false)
    ensures Walk(TreeOf(refs, picks), refs, false)
  {
    var k := refs[0].0;
    DecodeValueFactory(k);
    var tree := [KeyBytes(k)] + rest;
    assert TreeOf(refs, picks) == tree;
    assert tree[1..] == rest;
    assert Seek(k, rest, refs, false);
  }

  /** A first entry that is not required, with a key below the tree's first key, is sought past. */
  lemma SkippedStep(refs: RefList, rest: seq<seq<Byte>>, actual: U16)
    requires refs != [] && !AllPresent(refs[0].1) && rest != [] && rest[0] == KeyBytes(actual)
    requires refs[0].0 < actual && Walk(rest, refs[1..], false)
    ensures Walk(rest, refs, false)
  {
    DecodeValueFactory(actual);
    assert Walk(rest, refs[1..], false) == Seek(actual, rest[1..], refs[1..], false);
  }

  // ---------------------------------------------------------------------------
  // The same facts about the reference's map
  // ---------------------------------------------------------------------------

  /**
   * What an accepted tree means for the reference: every key whose versions
   * are all present is in the tree, and (for the corrected walk) every key in
   * the tree has an entry that may hold a value.
   */
  lemma VerifyMeaning(tree: seq<seq<Byte>>, m: Entries)
    requires CheckTreeStrict(tree, SortedRefs(m))
    ensures forall k | k in m && Required(m[k].versions) :: exists j | 0 <= j < |tree| :: Found(tree[j], k)
    ensures forall j | 0 <= j < |tree| && tree[j] != BATCH_COUNTER_KEY ::
      exists k | k in m :: Found(tree[j], k) && Possible(m[k].versions)
  {
    var refs := SortedRefs(m);
    RefsFromSound(m, 0);
    forall k | k in m && Required(m[k].versions)
      ensures exists j | 0 <= j < |tree| :: Found(tree[j], k)
    {
      RefsFromComplete(m, 0, k);
      var i :| 0 <= i < |refs| && refs[i].0 == k;
      WalkPresent(tree, refs, false, i);
    }
    forall j | 0 <= j < |tree| && tree[j] != BATCH_COUNTER_KEY
      ensures exists k | k in m :: Found(tree[j], k) && Possible(m[k].versions)
    {
      StrictKeysAllowed(tree, refs, j);
      var i :| 0 <= i < |refs| && Found(tree[j], refs[i].0) && Possible(refs[i].1);
      assert refs[i].0 in m;
    }
  }

  /** The reference's entries come out with ascending keys, so any agreeing tree passes. */
  lemma SortedRefsAgreeingTreePasses(m: Entries, picks: seq<bool>)
    requires Agrees(SortedRefs(m), picks)
    ensures CheckTreeStrict(TreeOf(SortedRefs(m), picks), SortedRefs(m))
  {
    RefsFromSound(m, 0);
    AgreeingTreePasses(SortedRefs(m), picks);
  }

  // ---------------------------------------------------------------------------
  // The walk as a loop
  // ---------------------------------------------------------------------------

  /** The inner loop: advance through `refs` from `from` for tree key `actual`. */
  method SeekReference(actual: U16, refs: RefList, from: nat, ghost rest: seq<seq<Byte>>)
    returns (ok: bool, next: nat)
    requires from <= |refs|
    ensures ok ==> from <= next <= |refs| && Seek(actual, rest, refs[from..], false) == Walk(rest, refs[next..], false)
    ensures !ok ==> !Seek(actual, rest, refs[from..], false)
  {
    next := from;
    while next < |refs|
      invariant from <= next <= |refs|
      invariant Seek(actual, rest, refs[from..], false) == Seek(actual, rest, refs[next..], false)
    {
      var (k, vs) := refs[next];
      assert refs[next..][1..] == refs[next + 1..];
      if AllAbsent(vs) {
        next := next + 1;
      } else if AllPresent(vs) {
        ok := actual == k;
        next := next + 1;
        return;
      } else if actual == k {
        ok := true;
        next := next + 1;
        return;
      } else if k > actual {
        ok := false;
        return;
      } else {
        next := next + 1;
      }
    }
    ok := false;
  }

  /**
   * `verify_against_reference`, with the correction: a tree key left over when
   * the reference runs out is rejected. `ok` is false where the source panics.
   * The tree is given as its keys in ascending order.
   */
  method VerifyAgainstReference(tree: seq<seq<Byte>>, reference: Reference) returns (ok: bool)
    ensures ok == CheckTreeStrict(tree, SortedRefs(reference.entries))
    ensures ok ==> CheckTree(tree, SortedRefs(reference.entries))
  {
    var refs := SortedRefs(reference.entries);
    var t, r := 0, 0;
    while t < |tree|
      invariant 0 <= t <= |tree| && 0 <= r <= |refs|
      invariant CheckTreeStrict(tree, refs) == Walk(tree[t..], refs[r..], false)
    {
      var key := tree[t];
      assert tree[t..][1..] == tree[t + 1..];
      if key != BATCH_COUNTER_KEY {
        var actual := DecodeValue(key);
        if actual.None? {
          return false;
        }
        var found;
        found, r := SeekReference(actual.value, refs, r, tree[t + 1..]);
        if !found {
          return false;
        }
      }
      t := t + 1;
    }
    ok := true;
    while r < |refs|
      invariant 0 <= r <= |refs|
      invariant CheckTreeStrict(tree, refs) == Walk([], refs[r..], false)
    {
      if AllPresent(refs[r].1) {
        ok := false;
        break;
      }
      assert refs[r..][1..] == refs[r + 1..];
      r := r + 1;
    }
    if ok { StrictImpliesLenient(tree, refs); }
  }
}
