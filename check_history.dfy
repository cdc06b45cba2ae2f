/**
 * The body of `check_history`: the MonoSAT problem built from a history, with
 * a node per transaction, a forced edge for every real-time ordering, and for
 * every key either a forced edge per read (one write to the key), a formula
 * over candidate edges per read (several writes), or an outright rejection
 * when a read cannot be explained by any write.
 */
module CheckHistory {
  import opened Prelude
  import opened Transactions
  import opened Cnf
  import opened MonosatGnf
  import opened TransactionsChecker

  // ---------------------------------------------------------------------------
  // Facts about a growing graph
  // ---------------------------------------------------------------------------

  /** Some edge `from -> to` is labelled with `v`. */
  ghost predicate HasEdge(g: GnfState, from: nat, to: nat, v: Variable)
  {
    exists e | 0 <= e < |g.edges| ::
      g.edges[e].0.from == Node(from) && g.edges[e].0.to == Node(to) && g.edges[e].0.variable == v
  }

  /** Some edge `from -> to` is labelled with a variable that a unit clause forces. */
  ghost predicate ForcedEdge(g: GnfState, from: nat, to: nat)
  {
    exists e | 0 <= e < |g.edges| ::
      && g.edges[e].0.from == Node(from) && g.edges[e].0.to == Node(to)
      && Clause([Positive(g.edges[e].0.variable)]) in AllClauses(g.metaClauses)
  }

  /** `later` only adds variables, clause blocks and edges to `earlier`. */
  predicate Extends(earlier: GnfState, later: GnfState)
  {
    && earlier.edges <= later.edges
    && earlier.metaClauses <= later.metaClauses
    && earlier.nNodes == later.nNodes
    && earlier.nVariables <= later.nVariables
    && earlier.acyclicVariable == later.acyclicVariable
  }

  lemma ExtendsTransitive(a: GnfState, b: GnfState, c: GnfState)
    requires Extends(a, b) && Extends(b, c)
    ensures Extends(a, c)
  {
  }

  /** Adding blocks keeps every clause of the formula, in place. */
  lemma {:induction false} AllClausesGrow(ms: seq<ClausesWithComment>, ns: seq<ClausesWithComment>)
    requires ms <= ns
    ensures AllClauses(ms) <= AllClauses(ns)
    decreases |ns|
  {
    if |ms| < |ns| {
      var init := ns[..|ns| - 1];
      assert ms <= init;
      AllClausesGrow(ms, init);
    } else {
      assert ms == ns;
    }
  }

  lemma ForcedEdgePersists(a: GnfState, b: GnfState, from: nat, to: nat)
    requires Extends(a, b) && ForcedEdge(a, from, to)
    ensures ForcedEdge(b, from, to)
  {
    var e :| 0 <= e < |a.edges| && a.edges[e].0.from == Node(from) && a.edges[e].0.to == Node(to)
      && Clause([Positive(a.edges[e].0.variable)]) in AllClauses(a.metaClauses);
    AllClausesGrow(a.metaClauses, b.metaClauses);
    assert b.edges[e] == a.edges[e];
  }

  lemma HasEdgePersists(a: GnfState, b: GnfState, from: nat, to: nat, v: Variable)
    requires Extends(a, b) && HasEdge(a, from, to, v)
    ensures HasEdge(b, from, to, v)
  {
    var e :| 0 <= e < |a.edges| && a.edges[e].0.from == Node(from) && a.edges[e].0.to == Node(to)
      && a.edges[e].0.variable == v;
    assert b.edges[e] == a.edges[e];
  }

  // ---------------------------------------------------------------------------
  // Comments, as `format!` writes them
  // ---------------------------------------------------------------------------

  /** `T{}` of a transaction index. */
  function TxName(t: nat): string
  {
    "T" + Decimal(t)
  }

  /** The elements of a byte vector as `{:?}` lists them, separated by ", ". */
  function DebugElements(bytes: seq<Byte>): string
  {
    if |bytes| == 0 then ""
    else if |bytes| == 1 then Decimal(bytes[0])
    else DebugElements(bytes[..|bytes| - 1]) + ", " + Decimal(bytes[|bytes| - 1])
  }

  /** `{:?}` of a `Vec<u8>`: `[1, 2, 3]`. */
  function DebugBytes(bytes: seq<Byte>): string
  {
    "[" + DebugElements(bytes) + "]"
  }

  /** `writes_str`: the writers' names joined with ", ". */
  function WriterNames(ws: seq<KeyAccess>): string
  {
    if |ws| == 0 then ""
    else if |ws| == 1 then TxName(ws[0].transactionIdx)
    else WriterNames(ws[..|ws| - 1]) + ", " + TxName(ws[|ws| - 1].transactionIdx)
  }

  function CandidatePrefix(trivial: bool): string
  {
    if trivial then "" else "Candidate "
  }

  function OnKey(key: seq<Byte>): string
  {
    " on " + DebugBytes(key)
  }

  function RealTimeClauseComment(i1: nat, i2: nat): string
  {
    "Real-time edge from " + TxName(i1) + " to " + TxName(i2)
  }

  function RealTimeEdgeComment(i1: nat, i2: nat): string
  {
    "Real time ordering of " + TxName(i1) + " and " + TxName(i2)
  }

  function AntiClauseComment(r: nat, w: nat, key: seq<Byte>): string
  {
    "R-W anti-dependency edge from " + TxName(r) + " to " + TxName(w) + OnKey(key)
  }

  /** The edge comment of a forced R-W edge, misspelt as in the source. */
  function AntiEdgeComment(r: nat, w: nat, key: seq<Byte>): string
  {
    "R-W anti-dependeny from " + TxName(r) + " to " + TxName(w) + OnKey(key)
  }

  function DependencyClauseComment(w: nat, r: nat, key: seq<Byte>): string
  {
    "W-R dependency edge from " + TxName(w) + " to " + TxName(r) + OnKey(key)
  }

  function DependencyEdgeComment(w: nat, r: nat, key: seq<Byte>): string
  {
    "W-R dependency from " + TxName(w) + " to " + TxName(r) + OnKey(key)
  }

  function CandidateAntiComment(trivial: bool, r: nat, w: nat, key: seq<Byte>): string
  {
    CandidatePrefix(trivial) + "R-W anti-dependency from " + TxName(r) + " to " + TxName(w) + OnKey(key)
  }

  function CandidateDependencyComment(trivial: bool, w: nat, r: nat, key: seq<Byte>): string
  {
    CandidatePrefix(trivial) + "W-R dependency from " + TxName(w) + " to " + TxName(r) + OnKey(key)
  }

  function CandidateOverwriteComment(o: nat, m: nat, key: seq<Byte>): string
  {
    "Candidate W-W anti-dependency from " + TxName(o) + " to " + TxName(m) + OnKey(key)
  }

  function OrderingComment(key: seq<Byte>, read: KeyAccess, ws: seq<KeyAccess>): string
  {
    "Ordering of writes [" + WriterNames(ws) + "] and read " + TxName(read.transactionIdx) + OnKey(key)
  }

  // ---------------------------------------------------------------------------
  // The problem each step leaves, as a function of the problem before it
  // ---------------------------------------------------------------------------

  /** `add_variable` then `add_edge`: an edge labelled with the next variable, and that variable. */
  function WithEdge(g: GnfState, from: nat, to: nat, comment: string): (GnfState, Variable)
  {
    var v := Variable(g.nVariables + 1);
    (g.(nVariables := v.index, edges := g.edges + [(Edge(Node(from), Node(to), v), comment)]), v)
  }

  /** `ForceEdge`: the next variable, a unit block forcing it, and the edge it labels. */
  function WithForcedEdge(g: GnfState, from: nat, to: nat, clauseComment: string, edgeComment: string): GnfState
  {
    var v := Variable(g.nVariables + 1);
    g.(nVariables := v.index,
       metaClauses := g.metaClauses + [ClausesWithComment(clauseComment, [Clause([Positive(v)])])],
       edges := g.edges + [(Edge(Node(from), Node(to), v), edgeComment)])
  }

  /** The problem before the real-time loop: the acyclicity block and one node per transaction. */
  function Skeleton(n: nat): GnfState
  {
    EMPTY.(metaClauses := [ClausesWithComment("Acyclic property", [Clause([Positive(EMPTY.acyclicVariable)])])],
           nNodes := n)
  }

  // ---------------------------------------------------------------------------
  // Forced edges and the nodes
  // ---------------------------------------------------------------------------

  /** A forced edge only adds to the problem, and forces an edge from `from` to `to`. */
  lemma WithForcedEdgeForces(g: GnfState, from: nat, to: nat, clauseComment: string, edgeComment: string)
    ensures Extends(g, WithForcedEdge(g, from, to, clauseComment, edgeComment))
    ensures ForcedEdge(WithForcedEdge(g, from, to, clauseComment, edgeComment), from, to)
  {
    var g' := WithForcedEdge(g, from, to, clauseComment, edgeComment);
    var v := Variable(g.nVariables + 1);
    assert AllClauses(g'.metaClauses) == AllClauses(g.metaClauses) + [Clause([Positive(v)])] by {
      assert g'.metaClauses[..|g'.metaClauses| - 1] == g.metaClauses;
    }
    assert g'.edges[|g'.edges| - 1].0 == Edge(Node(from), Node(to), v);
  }

  /** A fresh variable, a unit clause forcing it, and an edge labelled with it. */
  method ForceEdge(gnf: Gnf, from: Node, to: Node, clauseComment: string, edgeComment: string)
    modifies gnf
    requires WellFormed(gnf.State()) && from.index < gnf.nNodes && to.index < gnf.nNodes
    ensures gnf.State() == WithForcedEdge(old(gnf.State()), from.index, to.index, clauseComment, edgeComment)
    ensures WellFormed(gnf.State()) && Extends(old(gnf.State()), gnf.State())
    ensures ForcedEdge(gnf.State(), from.index, to.index)
  {
    var variable := gnf.AddVariable();
    gnf.AddClause(Clause([Positive(variable)]), clauseComment);
    ghost var withClause := gnf.State();
    gnf.AddEdge(from, to, variable, edgeComment);
    ghost var g := gnf.State();
    assert g.metaClauses == withClause.metaClauses;
    assert AllClauses(g.metaClauses) == AllClauses(g.metaClauses[..|g.metaClauses| - 1]) + [Clause([Positive(variable)])];
    assert g.edges[|g.edges| - 1].0 == Edge(from, to, variable);
  }

  /** `nodes`: one node per transaction, numbered in history order. */
  method AddNodes(gnf: Gnf, n: nat) returns (nodes: seq<Node>)
    modifies gnf
    requires WellFormed(gnf.State()) && gnf.nNodes == 0
    ensures WellFormed(gnf.State()) && gnf.State() == old(gnf.State()).(nNodes := n)
    ensures |nodes| == n && forall i | 0 <= i < n :: nodes[i] == Node(i)
  {
    nodes := [];
    while |nodes| < n
      invariant |nodes| <= n
      invariant WellFormed(gnf.State()) && gnf.State() == old(gnf.State()).(nNodes := |nodes|)
      invariant forall i | 0 <= i < |nodes| :: nodes[i] == Node(i)
    {
      var node := gnf.AddNode();
      nodes := nodes + [node];
    }
  }

  // ---------------------------------------------------------------------------
  // Real-time edges
  // ---------------------------------------------------------------------------

  /** Transaction `i2` started after transaction `i1` ended, both having completed. */
  predicate RealTimeBefore(h: seq<Transaction>, i1: nat, i2: nat)
  {
    && i1 < |h| && i2 < |h|
    && h[i1].1.Completed? && h[i2].1.Completed?
    && h[i2].1.start > h[i1].1.end
  }

  /** Every real-time ordered pair whose outer index is below `i1`, or equal to it with inner index below `i2`, has a forced edge. */
  ghost predicate RealTimeUpTo(h: seq<Transaction>, g: GnfState, i1: nat, i2: nat)
  {
    forall a: nat, b: nat | RealTimeBefore(h, a, b) && (a < i1 || (a == i1 && b < i2)) :: ForcedEdge(g, a, b)
  }

  /** Every real-time ordered pair has a forced edge. */
  ghost predicate RealTimeEdges(h: seq<Transaction>, g: GnfState)
  {
    forall a: nat, b: nat | RealTimeBefore(h, a, b) :: ForcedEdge(g, a, b)
  }

  lemma RealTimeUpToPersists(h: seq<Transaction>, x: GnfState, y: GnfState, i1: nat, i2: nat)
    requires Extends(x, y) && RealTimeUpTo(h, x, i1, i2)
    ensures RealTimeUpTo(h, y, i1, i2)
  {
    forall a: nat, b: nat | RealTimeBefore(h, a, b) && (a < i1 || (a == i1 && b < i2)) ensures ForcedEdge(y, a, b) {
      ForcedEdgePersists(x, y, a, b);
    }
  }

  lemma RealTimeEdgesPersist(h: seq<Transaction>, x: GnfState, y: GnfState)
    requires Extends(x, y) && RealTimeEdges(h, x)
    ensures RealTimeEdges(h, y)
  {
    forall a: nat, b: nat | RealTimeBefore(h, a, b) ensures ForcedEdge(y, a, b) {
      ForcedEdgePersists(x, y, a, b);
    }
  }

  /**
   * The problem after the real-time loop, started on `g`, has visited every
   * pair before `(i1, i2)`: a forced edge per pair ordered in real time, and
   * nothing else.
   */
  function RealTimeFrom(g: GnfState, h: seq<Transaction>, i1: nat, i2: nat): GnfState
    requires i1 <= |h| && i2 <= |h|
    decreases i1, i2
  {
    if i2 == 0 then (if i1 == 0 then g else RealTimeFrom(g, h, i1 - 1, |h|))
    else
      var prev := RealTimeFrom(g, h, i1, i2 - 1);
      if RealTimeBefore(h, i1, i2 - 1) then
        WithForcedEdge(prev, i1, i2 - 1, RealTimeClauseComment(i1, i2 - 1), RealTimeEdgeComment(i1, i2 - 1))
      else prev
  }

  /** The double loop over the history: an edge for every completed pair ordered in real time. */
  method AddRealTimeEdges(gnf: Gnf, h: seq<Transaction>, nodes: seq<Node>)
    modifies gnf
    requires WellFormed(gnf.State()) && gnf.nNodes == |h|
    requires |nodes| == |h| && forall i | 0 <= i < |h| :: nodes[i] == Node(i)
    ensures gnf.State() == RealTimeFrom(old(gnf.State()), h, |h|, 0)
    ensures WellFormed(gnf.State()) && Extends(old(gnf.State()), gnf.State())
    ensures RealTimeEdges(h, gnf.State())
  {
    var i1 := 0;
    while i1 < |h|
      invariant i1 <= |h|
      invariant gnf.State() == RealTimeFrom(old(gnf.State()), h, i1, 0)
      invariant WellFormed(gnf.State()) && Extends(old(gnf.State()), gnf.State())
      invariant RealTimeUpTo(h, gnf.State(), i1, 0)
    {
      var i2 := 0;
      while i2 < |h|
        invariant i2 <= |h|
        invariant gnf.State() == RealTimeFrom(old(gnf.State()), h, i1, i2)
        invariant WellFormed(gnf.State()) && Extends(old(gnf.State()), gnf.State())
        invariant RealTimeUpTo(h, gnf.State(), i1, i2)
      {
        if h[i1].1.Completed? && h[i2].1.Completed? && h[i2].1.start > h[i1].1.end {
          ghost var before := gnf.State();
          ForceEdge(gnf, nodes[i1], nodes[i2], RealTimeClauseComment(i1, i2), RealTimeEdgeComment(i1, i2));
          RealTimeUpToPersists(h, before, gnf.State(), i1, i2);
        }
        i2 := i2 + 1;
      }
      i1 := i1 + 1;
    }
  }

  // ---------------------------------------------------------------------------
  // Reads the writes cannot explain
  // ---------------------------------------------------------------------------

  /** The read saw a value that no write of the key wrote: it came from nowhere. */
  predicate Unexplained(r: KeyAccess, ws: seq<KeyAccess>)
  {
    r.value.Some? && forall o | 0 <= o < |ws| :: ws[o].value != r.value
  }

  /**
   * The key makes `check_history` give up without asking MonoSAT: it has
   * neither reads nor writes (`unreachable!()`), or one of its reads is
   * unexplained. This covers the zero-write, one-write and several-write arms.
   */
  predicate KeyRejected(rs: seq<KeyAccess>, ws: seq<KeyAccess>)
  {
    (|rs| == 0 && |ws| == 0) || exists i | 0 <= i < |rs| :: Unexplained(rs[i], ws)
  }

  /** `matching_write_tx_ids`: the writers, in order, of the value the read saw. */
  function Matching(read: KeyAccess, ws: seq<KeyAccess>): (ids: seq<nat>)
    ensures |ids| <= |ws|
  {
    if ws == [] then []
    else
      var last := ws[|ws| - 1];
      Matching(read, ws[..|ws| - 1]) + (if last.value == read.value then [last.transactionIdx] else [])
  }

  /** A transaction is listed exactly when one of its writes wrote the value read. */
  lemma {:induction false} MatchingExact(read: KeyAccess, ws: seq<KeyAccess>)
    ensures forall id :: id in Matching(read, ws) <==>
      exists o | 0 <= o < |ws| :: ws[o].value == read.value && ws[o].transactionIdx == id
    decreases |ws|
  {
    if ws != [] {
      var init := ws[..|ws| - 1];
      MatchingExact(read, init);
      forall id ensures id in Matching(read, ws) <==>
        exists o | 0 <= o < |ws| :: ws[o].value == read.value && ws[o].transactionIdx == id
      {
        if id in Matching(read, init) {
          var o :| 0 <= o < |init| && init[o].value == read.value && init[o].transactionIdx == id;
          assert ws[o] == init[o];
        } else if id in Matching(read, ws) {
          assert ws[|ws| - 1].value == read.value && ws[|ws| - 1].transactionIdx == id;
        }
        if exists o | 0 <= o < |ws| :: ws[o].value == read.value && ws[o].transactionIdx == id {
          var o :| 0 <= o < |ws| && ws[o].value == read.value && ws[o].transactionIdx == id;
          if o < |init| {
            assert init[o] == ws[o];
          }
        }
      }
    }
  }

  /** A read with a value is unexplained exactly when no writer matches it. */
  lemma UnexplainedIffNoMatch(read: KeyAccess, ws: seq<KeyAccess>)
    ensures Unexplained(read, ws) <==> read.value.Some? && |Matching(read, ws)| == 0
  {
    MatchingExact(read, ws);
    if read.value.Some? && |Matching(read, ws)| != 0 {
      var id := Matching(read, ws)[0];
      assert id in Matching(read, ws);
    }
    if read.value.Some? && !Unexplained(read, ws) {
      var o :| 0 <= o < |ws| && ws[o].value == read.value;
      assert ws[o].transactionIdx in Matching(read, ws);
    }
  }

  predicate AccessesBelow(accesses: seq<KeyAccess>, n: nat)
  {
    forall i | 0 <= i < |accesses| :: accesses[i].transactionIdx < n
  }

  lemma MatchingBelow(read: KeyAccess, ws: seq<KeyAccess>, n: nat)
    requires AccessesBelow(ws, n)
    ensures forall k | 0 <= k < |Matching(read, ws)| :: Matching(read, ws)[k] < n
  {
    MatchingExact(read, ws);
    var ids := Matching(read, ws);
    forall k | 0 <= k < |ids| ensures ids[k] < n {
      assert ids[k] in ids;
    }
  }

  /** Every access a key's positions contribute belongs to a transaction of the history. */
  lemma {:induction false} SplitIndices(h: seq<Transaction>, ps: seq<(nat, nat)>)
    requires forall i | 0 <= i < |ps| :: ValidPosition(h, ps[i])
    requires Split(h, ps).Some?
    ensures AccessesBelow(Split(h, ps).value.0, |h|) && AccessesBelow(Split(h, ps).value.1, |h|)
    decreases |ps|
  {
    if ps != [] {
      SplitIndices(h, ps[..|ps| - 1]);
    }
  }

  // ---------------------------------------------------------------------------
  // One write
  // ---------------------------------------------------------------------------

  /** The graph is ready for edges between the history's transactions. */
  predicate NodesReady(g: GnfState, nodes: seq<Node>)
  {
    WellFormed(g) && |nodes| == g.nNodes && forall i | 0 <= i < |nodes| :: nodes[i] == Node(i)
  }

  /**
   * With one write `w`, each of the first `n` reads is ordered by a forced
   * edge: before `w` when it saw nothing and `w` inserted, after `w` when it
   * saw the value `w` inserted.
   */
  ghost predicate SingleWriteEdges(g: GnfState, rs: seq<KeyAccess>, w: KeyAccess, n: nat)
  {
    forall i | 0 <= i < n && i < |rs| ::
      && (w.value.Some? && rs[i].value.None? ==> ForcedEdge(g, rs[i].transactionIdx, w.transactionIdx))
      && (rs[i].value.Some? && rs[i].value == w.value ==> ForcedEdge(g, w.transactionIdx, rs[i].transactionIdx))
  }

  lemma SingleWriteEdgesPersist(x: GnfState, y: GnfState, rs: seq<KeyAccess>, w: KeyAccess, n: nat)
    requires Extends(x, y) && SingleWriteEdges(x, rs, w, n)
    ensures SingleWriteEdges(y, rs, w, n)
  {
    forall i | 0 <= i < n && i < |rs| ensures
      && (w.value.Some? && rs[i].value.None? ==> ForcedEdge(y, rs[i].transactionIdx, w.transactionIdx))
      && (rs[i].value.Some? && rs[i].value == w.value ==> ForcedEdge(y, w.transactionIdx, rs[i].transactionIdx))
    {
      if w.value.Some? && rs[i].value.None? {
        ForcedEdgePersists(x, y, rs[i].transactionIdx, w.transactionIdx);
      }
      if rs[i].value.Some? && rs[i].value == w.value {
        ForcedEdgePersists(x, y, w.transactionIdx, rs[i].transactionIdx);
      }
    }
  }

  /**
   * The `(1, _)` arm's work for one read `r` of the write `w`: a forced R-W
   * edge when `r` saw nothing of an inserting write, a forced W-R edge when it
   * saw the written value, and nothing otherwise.
   */
  function SingleWriteStep(g: GnfState, key: seq<Byte>, r: KeyAccess, w: KeyAccess): GnfState
  {
    if w.value.Some? && r.value.None? then
      WithForcedEdge(g, r.transactionIdx, w.transactionIdx,
        AntiClauseComment(r.transactionIdx, w.transactionIdx, key),
        AntiEdgeComment(r.transactionIdx, w.transactionIdx, key))
    else if w.value.Some? && r.value == w.value then
      WithForcedEdge(g, w.transactionIdx, r.transactionIdx,
        DependencyClauseComment(w.transactionIdx, r.transactionIdx, key),
        DependencyEdgeComment(w.transactionIdx, r.transactionIdx, key))
    else g
  }

  /** The problem after the `(1, _)` arm, started on `g`, has handled the first `n` reads. */
  function SingleWriteUpTo(g: GnfState, key: seq<Byte>, rs: seq<KeyAccess>, w: KeyAccess, n: nat): GnfState
    requires n <= |rs|
  {
    if n == 0 then g else SingleWriteStep(SingleWriteUpTo(g, key, rs, w, n - 1), key, rs[n - 1], w)
  }

  /** One iteration of the `(1, _)` arm's loop; `false` where the read cannot be explained. */
  method SingleWriteRead(gnf: Gnf, nodes: seq<Node>, key: seq<Byte>, r: KeyAccess, w: KeyAccess) returns (ok: bool)
    modifies gnf
    requires NodesReady(gnf.State(), nodes)
    requires r.transactionIdx < |nodes| && w.transactionIdx < |nodes|
    ensures NodesReady(gnf.State(), nodes)
    ensures ok <==> !Unexplained(r, [w])
    ensures ok ==> gnf.State() == SingleWriteStep(old(gnf.State()), key, r, w)
    ensures !ok ==> gnf.State() == old(gnf.State())
  {
    assert [w][0] == w;
    match (w.value, r.value) {
      case (None, None) =>
        ok := true;
      case (None, Some(_)) =>
        ok := false;
      case (Some(_), None) =>
        ForceEdge(gnf, nodes[r.transactionIdx], nodes[w.transactionIdx],
          AntiClauseComment(r.transactionIdx, w.transactionIdx, key),
          AntiEdgeComment(r.transactionIdx, w.transactionIdx, key));
        ok := true;
      case (Some(writeValue), Some(readValue)) =>
        if writeValue != readValue {
          return false;
        }
        ForceEdge(gnf, nodes[w.transactionIdx], nodes[r.transactionIdx],
          DependencyClauseComment(w.transactionIdx, r.transactionIdx, key),
          DependencyEdgeComment(w.transactionIdx, r.transactionIdx, key));
        ok := true;
    }
  }

  lemma SingleWriteEdgesStep(x: GnfState, y: GnfState, rs: seq<KeyAccess>, w: KeyAccess, i: nat)
    requires i < |rs| && Extends(x, y) && SingleWriteEdges(x, rs, w, i)
    requires w.value.Some? && rs[i].value.None? ==> ForcedEdge(y, rs[i].transactionIdx, w.transactionIdx)
    requires rs[i].value.Some? && rs[i].value == w.value ==> ForcedEdge(y, w.transactionIdx, rs[i].transactionIdx)
    ensures SingleWriteEdges(y, rs, w, i + 1)
  {
    SingleWriteEdgesPersist(x, y, rs, w, i);
  }

  /** One read of the `(1, _)` arm only adds to the problem, and forces the edge the read needs. */
  lemma SingleWriteStepEdges(g: GnfState, key: seq<Byte>, r: KeyAccess, w: KeyAccess)
    ensures Extends(g, SingleWriteStep(g, key, r, w))
    ensures w.value.Some? && r.value.None? ==> ForcedEdge(SingleWriteStep(g, key, r, w), r.transactionIdx, w.transactionIdx)
    ensures r.value.Some? && r.value == w.value ==>
      ForcedEdge(SingleWriteStep(g, key, r, w), w.transactionIdx, r.transactionIdx)
  {
    if w.value.Some? && r.value.None? {
      WithForcedEdgeForces(g, r.transactionIdx, w.transactionIdx,
        AntiClauseComment(r.transactionIdx, w.transactionIdx, key),
        AntiEdgeComment(r.transactionIdx, w.transactionIdx, key));
    } else if w.value.Some? && r.value == w.value {
      WithForcedEdgeForces(g, w.transactionIdx, r.transactionIdx,
        DependencyClauseComment(w.transactionIdx, r.transactionIdx, key),
        DependencyEdgeComment(w.transactionIdx, r.transactionIdx, key));
    }
  }

  /** What the single-write arm leaves after its first `n` reads, as `x`, after `g`. */
  ghost predicate SingleWriteFacts(g: GnfState, rs: seq<KeyAccess>, w: KeyAccess, n: nat, x: GnfState)
  {
    Extends(g, x) && SingleWriteEdges(x, rs, w, n)
  }

  lemma SingleWriteNextFacts(g: GnfState, prev: GnfState, key: seq<Byte>, rs: seq<KeyAccess>, w: KeyAccess, i: nat)
    requires i < |rs| && SingleWriteFacts(g, rs, w, i, prev)
    ensures SingleWriteFacts(g, rs, w, i + 1, SingleWriteStep(prev, key, rs[i], w))
  {
    var next := SingleWriteStep(prev, key, rs[i], w);
    SingleWriteStepEdges(prev, key, rs[i], w);
    SingleWriteEdgesStep(prev, next, rs, w, i);
    ExtendsTransitive(g, prev, next);
  }

  lemma {:induction false} SingleWriteUpToEdges(g: GnfState, key: seq<Byte>, rs: seq<KeyAccess>, w: KeyAccess, n: nat)
    requires n <= |rs|
    ensures SingleWriteFacts(g, rs, w, n, SingleWriteUpTo(g, key, rs, w, n))
  {
    if n > 0 {
      SingleWriteUpToEdges(g, key, rs, w, n - 1);
      SingleWriteNextFacts(g, SingleWriteUpTo(g, key, rs, w, n - 1), key, rs, w, n - 1);
    }
  }


  /** The `(1, _)` arm: a read-dependency or anti-dependency edge per read, or a rejection. */
  method SingleWrite(gnf: Gnf, nodes: seq<Node>, key: seq<Byte>, rs: seq<KeyAccess>, w: KeyAccess) returns (ok: bool)
    modifies gnf
    requires NodesReady(gnf.State(), nodes)
    requires AccessesBelow(rs, |nodes|) && w.transactionIdx < |nodes|
    ensures NodesReady(gnf.State(), nodes) && Extends(old(gnf.State()), gnf.State())
    ensures ok <==> forall i | 0 <= i < |rs| :: !Unexplained(rs[i], [w])
    ensures ok ==> gnf.State() == SingleWriteUpTo(old(gnf.State()), key, rs, w, |rs|)
    ensures ok ==> SingleWriteEdges(gnf.State(), rs, w, |rs|)
  {
    ghost var start := gnf.State();
    var i := 0;
    while i < |rs|
      invariant i <= |rs|
      invariant gnf.State() == SingleWriteUpTo(start, key, rs, w, i)
      invariant NodesReady(gnf.State(), nodes)
      invariant forall j | 0 <= j < i :: !Unexplained(rs[j], [w])
    {
      var explained := SingleWriteRead(gnf, nodes, key, rs[i], w);
      if !explained {
        SingleWriteUpToEdges(start, key, rs, w, i);
        return false;
      }
      assert gnf.State() == SingleWriteUpTo(start, key, rs, w, i + 1);
      i := i + 1;
    }
    SingleWriteUpToEdges(start, key, rs, w, |rs|);
    ok := true;
  }

  // ---------------------------------------------------------------------------
  // Several writes: the ordering formula of one read
  // ---------------------------------------------------------------------------

  /**
   * The variables of one read's candidate edges: `wr[k]` labels the edge from
   * the `k`-th matching writer to the reader, `ww[k][o]` the edge from writer
   * `o` to the `k`-th matching writer (`None` where `o` is that very
   * transaction), and `anti[o]` the edge from the reader to writer `o`
   * (`read_to_write_antidep_edges`).
   */
  datatype ReadVars = ReadVars(wr: seq<Variable>, ww: seq<seq<Option<Variable>>>, anti: seq<Option<Variable>>)

  /** For each writer `o` among the first `|row|` that is not the candidate `m`, its W-W and R-W variables exist. */
  predicate RowShape(ws: seq<KeyAccess>, m: nat, row: seq<Option<Variable>>, anti: seq<Option<Variable>>)
  {
    && |row| <= |ws| && |anti| == |ws|
    && forall o | 0 <= o < |row| && ws[o].transactionIdx != m :: row[o].Some? && anti[o].Some?
  }

  predicate VarsShape(read: KeyAccess, ws: seq<KeyAccess>, ids: seq<nat>, rv: ReadVars)
  {
    && |rv.wr| == |ids| && |rv.ww| == |ids| && |rv.anti| == |ws|
    && (forall k | 0 <= k < |ids| :: |rv.ww[k]| == |ws| && RowShape(ws, ids[k], rv.ww[k], rv.anti))
    && (read.value.None? ==> forall o | 0 <= o < |ws| :: rv.anti[o].Some?)
  }

  /**
   * Under `a`, candidate `m` is where the read got its value: its W-R edge is
   * on, and every other writer comes before `m` (W-W edge) or after the read
   * (R-W edge).
   */
  predicate CaseHolds(a: Assignment, ws: seq<KeyAccess>, m: nat, wr: Variable, row: seq<Option<Variable>>,
                      anti: seq<Option<Variable>>)
    requires RowShape(ws, m, row, anti) && |row| == |ws|
  {
    a(wr) && forall o | 0 <= o < |ws| && ws[o].transactionIdx != m :: a(row[o].value) || a(anti[o].value)
  }

  /**
   * Under `a`, the read is explained: by one of its candidate writers, or,
   * when it saw nothing, by the initial state with every writer after it.
   */
  predicate Explained(a: Assignment, read: KeyAccess, ws: seq<KeyAccess>, ids: seq<nat>, rv: ReadVars)
    requires VarsShape(read, ws, ids, rv)
  {
    || (exists k | 0 <= k < |ids| :: CaseHolds(a, ws, ids[k], rv.wr[k], rv.ww[k], rv.anti))
    || (read.value.None? && forall o | 0 <= o < |ws| :: a(rv.anti[o].value))
  }

  /** `conj_args` after its first literal: a W-W-or-R-W disjunction per writer other than `m`. */
  function OtherWrites(ws: seq<KeyAccess>, m: nat, row: seq<Option<Variable>>, anti: seq<Option<Variable>>)
    : seq<Expression>
    requires RowShape(ws, m, row, anti)
  {
    if row == [] then []
    else
      var n := |row| - 1;
      OtherWrites(ws, m, row[..n], anti)
        + (if ws[n].transactionIdx == m then []
           else [Disjunction([Lit(Positive(row[n].value)), Lit(Positive(anti[n].value))])])
  }

  /** The conjunction of candidate `m`: its W-R literal, then `OtherWrites`. */
  function CandidateConj(ws: seq<KeyAccess>, m: nat, wr: Variable, row: seq<Option<Variable>>,
                         anti: seq<Option<Variable>>): Expression
    requires RowShape(ws, m, row, anti)
  {
    Conjunction([Lit(Positive(wr))] + OtherWrites(ws, m, row, anti))
  }

  predicate RowsShape(ws: seq<KeyAccess>, ids: seq<nat>, wrs: seq<Variable>, rows: seq<seq<Option<Variable>>>,
                      anti: seq<Option<Variable>>)
  {
    && |wrs| == |rows| <= |ids|
    && forall k | 0 <= k < |rows| :: |rows[k]| == |ws| && RowShape(ws, ids[k], rows[k], anti)
  }

  /** `disj_args` before the initial-state case: one `CandidateConj` per matching writer. */
  function Candidates(ws: seq<KeyAccess>, ids: seq<nat>, wrs: seq<Variable>, rows: seq<seq<Option<Variable>>>,
                      anti: seq<Option<Variable>>): (cs: seq<Expression>)
    requires RowsShape(ws, ids, wrs, rows, anti)
    ensures |cs| == |wrs|
  {
    if wrs == [] then []
    else
      var n := |wrs| - 1;
      Candidates(ws, ids, wrs[..n], rows[..n], anti) + [CandidateConj(ws, ids[n], wrs[n], rows[n], anti)]
  }

  lemma {:induction false} CandidatesAt(ws: seq<KeyAccess>, ids: seq<nat>, wrs: seq<Variable>,
                                        rows: seq<seq<Option<Variable>>>, anti: seq<Option<Variable>>)
    requires RowsShape(ws, ids, wrs, rows, anti)
    ensures forall k | 0 <= k < |wrs| ::
      Candidates(ws, ids, wrs, rows, anti)[k] == CandidateConj(ws, ids[k], wrs[k], rows[k], anti)
    decreases |wrs|
  {
    if wrs != [] {
      var n := |wrs| - 1;
      CandidatesAt(ws, ids, wrs[..n], rows[..n], anti);
    }
  }

  /** The initial-state case: an R-W literal per writer. */
  function InitialLits(anti: seq<Option<Variable>>): (ls: seq<Expression>)
    requires forall o | 0 <= o < |anti| :: anti[o].Some?
    ensures |ls| == |anti| && forall o | 0 <= o < |anti| :: ls[o] == Lit(Positive(anti[o].value))
  {
    if anti == [] then [] else InitialLits(anti[..|anti| - 1]) + [Lit(Positive(anti[|anti| - 1].value))]
  }

  /** The formula `check_history` hands to `to_cnf` for one read. */
  function OrderingExpression(read: KeyAccess, ws: seq<KeyAccess>, ids: seq<nat>, rv: ReadVars): Expression
    requires VarsShape(read, ws, ids, rv)
  {
    Disjunction(Candidates(ws, ids, rv.wr, rv.ww, rv.anti)
      + (if read.value.None? then [Conjunction(InitialLits(rv.anti))] else []))
  }

  /** The formula `ConstrainRead` assembles is the read's ordering expression. */
  lemma OrderingExpressionIs(read: KeyAccess, ws: seq<KeyAccess>, ids: seq<nat>, rv: ReadVars,
                             cands: seq<Expression>, disjArgs: seq<Expression>)
    requires VarsShape(read, ws, ids, rv) && cands == Candidates(ws, ids, rv.wr, rv.ww, rv.anti)
    requires disjArgs == cands + (if read.value.None? then [Conjunction(InitialLits(rv.anti))] else [])
    ensures Disjunction(disjArgs) == OrderingExpression(read, ws, ids, rv)
  {
  }

  lemma {:induction false} OtherWritesMeaning(ws: seq<KeyAccess>, m: nat, row: seq<Option<Variable>>,
                                              anti: seq<Option<Variable>>, a: Assignment)
    requires RowShape(ws, m, row, anti)
    ensures Eval(Conjunction(OtherWrites(ws, m, row, anti)), a)
      <==> forall o | 0 <= o < |row| && ws[o].transactionIdx != m :: a(row[o].value) || a(anti[o].value)
    decreases |row|
  {
    if row != [] {
      var n := |row| - 1;
      var init := row[..n];
      OtherWritesMeaning(ws, m, init, anti, a);
      var front := OtherWrites(ws, m, init, anti);
      var all := OtherWrites(ws, m, row, anti);
      assert forall j | 0 <= j < |front| :: all[j] == front[j];
      if ws[n].transactionIdx != m {
        assert all[|all| - 1] == Disjunction([Lit(Positive(row[n].value)), Lit(Positive(anti[n].value))]);
        assert Eval(all[|all| - 1], a) <==> a(row[n].value) || a(anti[n].value) by {
          var d := all[|all| - 1];
          assert d.args[0] == Lit(Positive(row[n].value)) && d.args[1] == Lit(Positive(anti[n].value));
        }
      }
    }
  }

  lemma CandidateMeaning(ws: seq<KeyAccess>, m: nat, wr: Variable, row: seq<Option<Variable>>,
                         anti: seq<Option<Variable>>, a: Assignment)
    requires RowShape(ws, m, row, anti) && |row| == |ws|
    ensures Eval(CandidateConj(ws, m, wr, row, anti), a) <==> CaseHolds(a, ws, m, wr, row, anti)
  {
    var rest := OtherWrites(ws, m, row, anti);
    OtherWritesMeaning(ws, m, row, anti, a);
    var args := [Lit(Positive(wr))] + rest;
    assert args[0] == Lit(Positive(wr));
    assert forall j | 0 <= j < |rest| :: args[j + 1] == rest[j];
    if Eval(Conjunction(rest), a) && a(wr) {
      forall j | 0 <= j < |args| ensures Eval(args[j], a) {
        if j > 0 {
          assert args[j] == rest[j - 1];
        }
      }
    }
  }

  /** The formula holds exactly when the read is explained. */
  lemma OrderingMeaning(read: KeyAccess, ws: seq<KeyAccess>, ids: seq<nat>, rv: ReadVars)
    requires VarsShape(read, ws, ids, rv)
    ensures forall a :: Eval(OrderingExpression(read, ws, ids, rv), a) <==> Explained(a, read, ws, ids, rv)
  {
    var cands := Candidates(ws, ids, rv.wr, rv.ww, rv.anti);
    CandidatesAt(ws, ids, rv.wr, rv.ww, rv.anti);
    var args := cands + (if read.value.None? then [Conjunction(InitialLits(rv.anti))] else []);
    assert forall k | 0 <= k < |cands| :: args[k] == cands[k];
    forall a ensures Eval(OrderingExpression(read, ws, ids, rv), a) <==> Explained(a, read, ws, ids, rv) {
      forall k | 0 <= k < |ids| ensures Eval(args[k], a) <==> CaseHolds(a, ws, ids[k], rv.wr[k], rv.ww[k], rv.anti) {
        CandidateMeaning(ws, ids[k], rv.wr[k], rv.ww[k], rv.anti, a);
      }
      if read.value.None? {
        var init := InitialLits(rv.anti);
        assert args[|args| - 1] == Conjunction(init);
        assert Eval(Conjunction(init), a) <==> forall o | 0 <= o < |ws| :: a(rv.anti[o].value) by {
          assert forall o | 0 <= o < |ws| :: Eval(init[o], a) == a(rv.anti[o].value);
        }
      }
    }
  }

  // ---------------------------------------------------------------------------
  // The formula fits the problem and cannot make `to_cnf` panic
  // ---------------------------------------------------------------------------

  predicate VarBelow(v: Variable, n: nat)
  {
    1 <= v.index <= n
  }

  predicate OptionsBelow(vs: seq<Option<Variable>>, n: nat)
  {
    forall o | 0 <= o < |vs| && vs[o].Some? :: VarBelow(vs[o].value, n)
  }

  predicate VarsBelow(wrs: seq<Variable>, rows: seq<seq<Option<Variable>>>, anti: seq<Option<Variable>>, n: nat)
  {
    && (forall k | 0 <= k < |wrs| :: VarBelow(wrs[k], n))
    && (forall k | 0 <= k < |rows| :: OptionsBelow(rows[k], n))
    && OptionsBelow(anti, n)
  }

  predicate LitsBelow(ls: set<Literal>, n: nat)
  {
    forall l | l in ls :: VarBelow(l.variable, n)
  }

  lemma ArgsLitsBelow(es: seq<Expression>, n: nat)
    requires forall j | 0 <= j < |es| :: LitsBelow(Lits(es[j]), n)
    ensures LitsBelow(ArgsLits(es), n)
  {
    forall l | l in ArgsLits(es) ensures VarBelow(l.variable, n) {
      var j :| 0 <= j < |es| && l in Lits(es[j]);
    }
  }

  lemma {:induction false} OtherWritesBounds(ws: seq<KeyAccess>, m: nat, row: seq<Option<Variable>>,
                                             anti: seq<Option<Variable>>, n: nat)
    requires RowShape(ws, m, row, anti) && OptionsBelow(row, n) && OptionsBelow(anti, n)
    ensures var es := OtherWrites(ws, m, row, anti);
      AllNonEmpty(es) && forall j | 0 <= j < |es| :: LitsBelow(Lits(es[j]), n)
    decreases |row|
  {
    if row != [] {
      var k := |row| - 1;
      OtherWritesBounds(ws, m, row[..k], anti, n);
      if ws[k].transactionIdx != m {
        var pair := [Lit(Positive(row[k].value)), Lit(Positive(anti[k].value))];
        assert Lits(pair[0]) == {Positive(row[k].value)} && Lits(pair[1]) == {Positive(anti[k].value)};
        ArgsLitsBelow(pair, n);
      }
    }
  }

  lemma CandidateBounds(ws: seq<KeyAccess>, m: nat, wr: Variable, row: seq<Option<Variable>>,
                        anti: seq<Option<Variable>>, n: nat)
    requires RowShape(ws, m, row, anti) && VarBelow(wr, n) && OptionsBelow(row, n) && OptionsBelow(anti, n)
    ensures NonEmpty(CandidateConj(ws, m, wr, row, anti)) && LitsBelow(Lits(CandidateConj(ws, m, wr, row, anti)), n)
  {
    var rest := OtherWrites(ws, m, row, anti);
    OtherWritesBounds(ws, m, row, anti, n);
    var args := [Lit(Positive(wr))] + rest;
    assert forall j | 0 <= j < |rest| :: args[j + 1] == rest[j];
    assert forall j | 1 <= j < |args| :: args[j] == rest[j - 1];
    ArgsLitsBelow(args, n);
  }

  /** Every literal of the formula names a variable of the problem, and nothing in it is empty. */
  lemma OrderingBounds(read: KeyAccess, ws: seq<KeyAccess>, ids: seq<nat>, rv: ReadVars, n: nat)
    requires VarsShape(read, ws, ids, rv) && VarsBelow(rv.wr, rv.ww, rv.anti, n)
    requires |ws| > 0 && (|ids| > 0 || read.value.None?)
    ensures NonEmpty(OrderingExpression(read, ws, ids, rv))
    ensures LitsBelow(Lits(OrderingExpression(read, ws, ids, rv)), n)
  {
    var cands := Candidates(ws, ids, rv.wr, rv.ww, rv.anti);
    CandidatesAt(ws, ids, rv.wr, rv.ww, rv.anti);
    var args := cands + (if read.value.None? then [Conjunction(InitialLits(rv.anti))] else []);
    forall k | 0 <= k < |cands| ensures NonEmpty(args[k]) && LitsBelow(Lits(args[k]), n) {
      assert args[k] == cands[k];
      CandidateBounds(ws, ids[k], rv.wr[k], rv.ww[k], rv.anti, n);
    }
    if read.value.None? {
      var init := InitialLits(rv.anti);
      assert args[|args| - 1] == Conjunction(init);
      forall o | 0 <= o < |init| ensures LitsBelow(Lits(init[o]), n) {
        assert Lits(init[o]) == {Positive(rv.anti[o].value)};
      }
      ArgsLitsBelow(init, n);
    }
    ArgsLitsBelow(args, n);
  }

  // ---------------------------------------------------------------------------
  // Several writes: building one read's edges and formula
  // ---------------------------------------------------------------------------

  /** The R-W edges that exist, from the reader to each writer `o`. */
  ghost predicate AntiEdges(g: GnfState, read: KeyAccess, ws: seq<KeyAccess>, anti: seq<Option<Variable>>)
  {
    forall o | 0 <= o < |anti| && o < |ws| && anti[o].Some? ::
      HasEdge(g, read.transactionIdx, ws[o].transactionIdx, anti[o].value)
  }

  /** The W-W edges of candidate `m` that exist, from each other writer `o` to `m`. */
  ghost predicate RowEdges(g: GnfState, ws: seq<KeyAccess>, m: nat, row: seq<Option<Variable>>)
  {
    forall o | 0 <= o < |row| && o < |ws| && row[o].Some? :: HasEdge(g, ws[o].transactionIdx, m, row[o].value)
  }

  /** The W-R and W-W edges of the first `|wrs|` candidates. */
  ghost predicate CandidateEdges(g: GnfState, read: KeyAccess, ws: seq<KeyAccess>, ids: seq<nat>,
                                 wrs: seq<Variable>, rows: seq<seq<Option<Variable>>>)
  {
    forall k | 0 <= k < |wrs| && k < |rows| && k < |ids| ::
      HasEdge(g, ids[k], read.transactionIdx, wrs[k]) && RowEdges(g, ws, ids[k], rows[k])
  }

  lemma AntiEdgesPersist(x: GnfState, y: GnfState, read: KeyAccess, ws: seq<KeyAccess>, anti: seq<Option<Variable>>)
    requires Extends(x, y) && AntiEdges(x, read, ws, anti)
    ensures AntiEdges(y, read, ws, anti)
  {
    forall o | 0 <= o < |anti| && o < |ws| && anti[o].Some?
      ensures HasEdge(y, read.transactionIdx, ws[o].transactionIdx, anti[o].value)
    {
      HasEdgePersists(x, y, read.transactionIdx, ws[o].transactionIdx, anti[o].value);
    }
  }

  lemma RowEdgesPersist(x: GnfState, y: GnfState, ws: seq<KeyAccess>, m: nat, row: seq<Option<Variable>>)
    requires Extends(x, y) && RowEdges(x, ws, m, row)
    ensures RowEdges(y, ws, m, row)
  {
    forall o | 0 <= o < |row| && o < |ws| && row[o].Some? ensures HasEdge(y, ws[o].transactionIdx, m, row[o].value) {
      HasEdgePersists(x, y, ws[o].transactionIdx, m, row[o].value);
    }
  }

  lemma CandidateEdgesPersist(x: GnfState, y: GnfState, read: KeyAccess, ws: seq<KeyAccess>, ids: seq<nat>,
                              wrs: seq<Variable>, rows: seq<seq<Option<Variable>>>)
    requires Extends(x, y) && CandidateEdges(x, read, ws, ids, wrs, rows)
    ensures CandidateEdges(y, read, ws, ids, wrs, rows)
  {
    forall k | 0 <= k < |wrs| && k < |rows| && k < |ids|
      ensures HasEdge(y, ids[k], read.transactionIdx, wrs[k]) && RowEdges(y, ws, ids[k], rows[k])
    {
      HasEdgePersists(x, y, ids[k], read.transactionIdx, wrs[k]);
      RowEdgesPersist(x, y, ws, ids[k], rows[k]);
    }
  }

  lemma CandidateEdgesStep(g: GnfState, read: KeyAccess, ws: seq<KeyAccess>, ids: seq<nat>,
                           wrs: seq<Variable>, rows: seq<seq<Option<Variable>>>, wr: Variable, row: seq<Option<Variable>>)
    requires |wrs| == |rows| < |ids| && CandidateEdges(g, read, ws, ids, wrs, rows)
    requires HasEdge(g, ids[|wrs|], read.transactionIdx, wr) && RowEdges(g, ws, ids[|wrs|], row)
    ensures CandidateEdges(g, read, ws, ids, wrs + [wr], rows + [row])
  {
    var wrs', rows' := wrs + [wr], rows + [row];
    forall k | 0 <= k < |wrs'| && k < |rows'| && k < |ids|
      ensures HasEdge(g, ids[k], read.transactionIdx, wrs'[k]) && RowEdges(g, ws, ids[k], rows'[k])
    {
      if k < |wrs| {
        assert wrs'[k] == wrs[k] && rows'[k] == rows[k];
      }
    }
  }

  lemma CandidatesStep(ws: seq<KeyAccess>, ids: seq<nat>, wrs: seq<Variable>, rows: seq<seq<Option<Variable>>>,
                       anti: seq<Option<Variable>>, wr: Variable, row: seq<Option<Variable>>)
    requires RowsShape(ws, ids, wrs, rows, anti) && |wrs| < |ids|
    requires |row| == |ws| && RowShape(ws, ids[|wrs|], row, anti)
    ensures RowsShape(ws, ids, wrs + [wr], rows + [row], anti)
    ensures Candidates(ws, ids, wrs + [wr], rows + [row], anti)
      == Candidates(ws, ids, wrs, rows, anti) + [CandidateConj(ws, ids[|wrs|], wr, row, anti)]
  {
    assert (wrs + [wr])[..|wrs|] == wrs && (rows + [row])[..|wrs|] == rows;
  }

  lemma VarsBelowStep(wrs: seq<Variable>, rows: seq<seq<Option<Variable>>>, anti: seq<Option<Variable>>,
                      n: nat, n': nat, wr: Variable, row: seq<Option<Variable>>)
    requires VarsBelow(wrs, rows, anti, n) && n <= n' && VarBelow(wr, n') && OptionsBelow(row, n')
    ensures VarsBelow(wrs + [wr], rows + [row], anti, n')
  {
    assert forall k | 0 <= k < |rows| :: (rows + [row])[k] == rows[k];
  }

  /** The pieces built by the loops make up a well-shaped `ReadVars`. */
  lemma AssembleVars(read: KeyAccess, ws: seq<KeyAccess>, ids: seq<nat>, wrs: seq<Variable>,
                     rows: seq<seq<Option<Variable>>>, anti: seq<Option<Variable>>)
    requires |wrs| == |ids| && RowsShape(ws, ids, wrs, rows, anti) && |anti| == |ws|
    requires forall o | 0 <= o < |ws| ::
      anti[o].None? ==> (|ids| == 1 && ws[o].transactionIdx == ids[0] && read.value.Some?)
    ensures VarsShape(read, ws, ids, ReadVars(wrs, rows, anti))
  {
  }

  /** `read_to_write_antidep_edges` leaves out writer `o`: the lone matching writer of a read that saw a value. */
  predicate SkipsAnti(read: KeyAccess, ws: seq<KeyAccess>, ids: seq<nat>, o: nat)
    requires o < |ws|
  {
    |ids| == 1 && ws[o].transactionIdx == ids[0] && read.value.Some?
  }

  /** The read has one possible explanation, so its edges are not called candidates. */
  predicate Trivial(read: KeyAccess, ids: seq<nat>)
  {
    |ids| + (if read.value.None? then 1 else 0) == 1
  }

  /** The problem, and the R-W variables, after the R-W edges to the first `n` writers. */
  function AntiUpTo(g: GnfState, key: seq<Byte>, read: KeyAccess, ws: seq<KeyAccess>, ids: seq<nat>,
                    trivial: bool, n: nat): (GnfState, seq<Option<Variable>>)
    requires n <= |ws|
  {
    if n == 0 then (g, [])
    else
      var (prev, anti) := AntiUpTo(g, key, read, ws, ids, trivial, n - 1);
      if SkipsAnti(read, ws, ids, n - 1) then (prev, anti + [None])
      else
        var (next, v) := WithEdge(prev, read.transactionIdx, ws[n - 1].transactionIdx,
          CandidateAntiComment(trivial, read.transactionIdx, ws[n - 1].transactionIdx, key));
        (next, anti + [Some(v)])
  }

  /** The problem, and candidate `m`'s W-W variables, after the W-W edges from the first `n` writers. */
  function RowUpTo(g: GnfState, key: seq<Byte>, ws: seq<KeyAccess>, m: nat, n: nat): (GnfState, seq<Option<Variable>>)
    requires n <= |ws|
  {
    if n == 0 then (g, [])
    else
      var (prev, row) := RowUpTo(g, key, ws, m, n - 1);
      if ws[n - 1].transactionIdx == m then (prev, row + [None])
      else
        var (next, v) := WithEdge(prev, ws[n - 1].transactionIdx, m,
          CandidateOverwriteComment(ws[n - 1].transactionIdx, m, key));
        (next, row + [Some(v)])
  }

  /** Candidate `m`'s W-R edge to the reader, then its W-W edges. */
  function WithCandidate(g: GnfState, key: seq<Byte>, read: KeyAccess, ws: seq<KeyAccess>, m: nat, trivial: bool)
    : (GnfState, Variable, seq<Option<Variable>>)
  {
    var (g1, wr) := WithEdge(g, m, read.transactionIdx,
      CandidateDependencyComment(trivial, m, read.transactionIdx, key));
    var (g2, row) := RowUpTo(g1, key, ws, m, |ws|);
    (g2, wr, row)
  }

  /** The problem, and the candidates' variables, after the first `n` matching writers. */
  function CandidatesUpTo(g: GnfState, key: seq<Byte>, read: KeyAccess, ws: seq<KeyAccess>, ids: seq<nat>,
                          trivial: bool, n: nat): (GnfState, seq<Variable>, seq<seq<Option<Variable>>>)
    requires n <= |ids|
  {
    if n == 0 then (g, [], [])
    else
      var (prev, wrs, rows) := CandidatesUpTo(g, key, read, ws, ids, trivial, n - 1);
      var (next, wr, row) := WithCandidate(prev, key, read, ws, ids[n - 1], trivial);
      (next, wrs + [wr], rows + [row])
  }

  /** Every edge the several-writes arm adds for one read, and the variables labelling them. */
  function ReadEdges(g: GnfState, key: seq<Byte>, read: KeyAccess, ws: seq<KeyAccess>): (GnfState, ReadVars)
  {
    var ids := Matching(read, ws);
    var trivial := Trivial(read, ids);
    var (g1, anti) := AntiUpTo(g, key, read, ws, ids, trivial, |ws|);
    var (g2, wrs, rows) := CandidatesUpTo(g1, key, read, ws, ids, trivial, |ids|);
    (g2, ReadVars(wrs, rows, anti))
  }

  /** `add_variable` then `add_edge`: a fresh, unconstrained edge. */
  method AddCandidateEdge(gnf: Gnf, from: Node, to: Node, comment: string) returns (v: Variable)
    modifies gnf
    requires WellFormed(gnf.State()) && from.index < gnf.nNodes && to.index < gnf.nNodes
    ensures (gnf.State(), v) == WithEdge(old(gnf.State()), from.index, to.index, comment)
    ensures WellFormed(gnf.State()) && Extends(old(gnf.State()), gnf.State())
    ensures HasEdge(gnf.State(), from.index, to.index, v) && VarBelow(v, gnf.nVariables)
  {
    v := gnf.AddVariable();
    gnf.AddEdge(from, to, v, comment);
    assert gnf.edges[|gnf.edges| - 1].0 == Edge(from, to, v);
  }

  /** `WithEdge` only adds to the problem, and adds an edge from `from` to `to` labelled with a new variable. */
  lemma WithEdgeHas(g: GnfState, from: nat, to: nat, comment: string)
    ensures Extends(g, WithEdge(g, from, to, comment).0)
    ensures WithEdge(g, from, to, comment).0.nVariables == g.nVariables + 1
    ensures HasEdge(WithEdge(g, from, to, comment).0, from, to, WithEdge(g, from, to, comment).1)
    ensures VarBelow(WithEdge(g, from, to, comment).1, WithEdge(g, from, to, comment).0.nVariables)
  {
    var g' := WithEdge(g, from, to, comment).0;
    assert g'.edges[|g'.edges| - 1].0 == Edge(Node(from), Node(to), Variable(g.nVariables + 1));
  }

  /** What the R-W edges for the first `n` writers leave, as `(g', anti)`, after `g`. */
  ghost predicate AntiFacts(g: GnfState, read: KeyAccess, ws: seq<KeyAccess>, ids: seq<nat>, n: nat,
                            r: (GnfState, seq<Option<Variable>>))
    requires n <= |ws|
  {
    && |r.1| == n && Extends(g, r.0)
    && (forall o | 0 <= o < n :: r.1[o].None? <==> SkipsAnti(read, ws, ids, o))
    && OptionsBelow(r.1, r.0.nVariables) && AntiEdges(r.0, read, ws, r.1)
  }

  lemma AntiSkipFacts(g: GnfState, prev: GnfState, anti: seq<Option<Variable>>, read: KeyAccess,
                      ws: seq<KeyAccess>, ids: seq<nat>, o: nat)
    requires o < |ws| && SkipsAnti(read, ws, ids, o) && AntiFacts(g, read, ws, ids, o, (prev, anti))
    ensures AntiFacts(g, read, ws, ids, o + 1, (prev, anti + [None]))
  {
    AntiExtend(prev, read, ws, ids, anti, None, prev.nVariables);
  }

  lemma AntiEdgeFacts(g: GnfState, prev: GnfState, anti: seq<Option<Variable>>, key: seq<Byte>, read: KeyAccess,
                      ws: seq<KeyAccess>, ids: seq<nat>, trivial: bool, o: nat)
    requires o < |ws| && !SkipsAnti(read, ws, ids, o) && AntiFacts(g, read, ws, ids, o, (prev, anti))
    ensures var (next, v) := WithEdge(prev, read.transactionIdx, ws[o].transactionIdx,
        CandidateAntiComment(trivial, read.transactionIdx, ws[o].transactionIdx, key));
      AntiFacts(g, read, ws, ids, o + 1, (next, anti + [Some(v)]))
  {
    var comment := CandidateAntiComment(trivial, read.transactionIdx, ws[o].transactionIdx, key);
    var (next, v) := WithEdge(prev, read.transactionIdx, ws[o].transactionIdx, comment);
    WithEdgeHas(prev, read.transactionIdx, ws[o].transactionIdx, comment);
    AntiEdgesPersist(prev, next, read, ws, anti);
    AntiExtend(next, read, ws, ids, anti, Some(v), prev.nVariables);
    ExtendsTransitive(g, prev, next);
  }

  /**
   * The R-W edges only add to the problem; the entry of writer `o` is absent
   * exactly when `SkipsAnti` says so, and otherwise labels an edge from the
   * reader to `o`.
   */
  lemma {:induction false} AntiUpToEdges(g: GnfState, key: seq<Byte>, read: KeyAccess, ws: seq<KeyAccess>,
                                         ids: seq<nat>, trivial: bool, n: nat)
    requires n <= |ws|
    ensures AntiFacts(g, read, ws, ids, n, AntiUpTo(g, key, read, ws, ids, trivial, n))
  {
    if n > 0 {
      AntiUpToEdges(g, key, read, ws, ids, trivial, n - 1);
      var (prev, anti) := AntiUpTo(g, key, read, ws, ids, trivial, n - 1);
      if SkipsAnti(read, ws, ids, n - 1) {
        AntiSkipFacts(g, prev, anti, read, ws, ids, n - 1);
      } else {
        AntiEdgeFacts(g, prev, anti, key, read, ws, ids, trivial, n - 1);
      }
    }
  }


  /**
   * `read_to_write_antidep_edges`: an R-W edge from the reader to every
   * writer, except to the only matching writer of a read that saw a value
   * (that edge would never be used).
   */
  method AddAntiEdges(gnf: Gnf, nodes: seq<Node>, key: seq<Byte>, read: KeyAccess, ws: seq<KeyAccess>,
                      ids: seq<nat>, trivial: bool) returns (anti: seq<Option<Variable>>)
    modifies gnf
    requires NodesReady(gnf.State(), nodes) && read.transactionIdx < |nodes| && AccessesBelow(ws, |nodes|)
    ensures (gnf.State(), anti) == AntiUpTo(old(gnf.State()), key, read, ws, ids, trivial, |ws|)
    ensures NodesReady(gnf.State(), nodes)
    ensures |anti| == |ws| && forall o | 0 <= o < |ws| :: anti[o].None? <==> SkipsAnti(read, ws, ids, o)
  {
    ghost var start := gnf.State();
    anti := [];
    var o := 0;
    while o < |ws|
      invariant o <= |ws|
      invariant (gnf.State(), anti) == AntiUpTo(start, key, read, ws, ids, trivial, o)
      invariant NodesReady(gnf.State(), nodes)
    {
      if SkipsAnti(read, ws, ids, o) {
        anti := anti + [None];
      } else {
        var v := AddCandidateEdge(gnf, nodes[read.transactionIdx], nodes[ws[o].transactionIdx],
          CandidateAntiComment(trivial, read.transactionIdx, ws[o].transactionIdx, key));
        anti := anti + [Some(v)];
      }
      o := o + 1;
    }
    AntiUpToEdges(start, key, read, ws, ids, trivial, |ws|);
  }


  /** One more writer's R-W entry: absent exactly for the lone candidate's own writes, else an edge. */
  lemma AntiExtend(g: GnfState, read: KeyAccess, ws: seq<KeyAccess>, ids: seq<nat>, anti: seq<Option<Variable>>,
                   e: Option<Variable>, n0: nat)
    requires |anti| < |ws| && AntiEdges(g, read, ws, anti) && OptionsBelow(anti, n0) && n0 <= g.nVariables
    requires forall o | 0 <= o < |anti| ::
      anti[o].None? <==> (|ids| == 1 && ws[o].transactionIdx == ids[0] && read.value.Some?)
    requires e.None? <==> (|ids| == 1 && ws[|anti|].transactionIdx == ids[0] && read.value.Some?)
    requires e.Some? ==>
      HasEdge(g, read.transactionIdx, ws[|anti|].transactionIdx, e.value) && VarBelow(e.value, g.nVariables)
    ensures forall o | 0 <= o < |anti + [e]| ::
      (anti + [e])[o].None? <==> (|ids| == 1 && ws[o].transactionIdx == ids[0] && read.value.Some?)
    ensures OptionsBelow(anti + [e], g.nVariables) && AntiEdges(g, read, ws, anti + [e])
  {
    var anti' := anti + [e];
    assert forall o | 0 <= o < |anti| :: anti'[o] == anti[o];
  }

  /** One more writer's entry in a candidate's row: its shape and its conjunct. */
  lemma OtherWritesStep(ws: seq<KeyAccess>, m: nat, row: seq<Option<Variable>>, anti: seq<Option<Variable>>,
                        e: Option<Variable>, wr: Variable)
    requires RowShape(ws, m, row, anti) && |row| < |ws|
    requires ws[|row|].transactionIdx != m ==> e.Some? && anti[|row|].Some?
    ensures RowShape(ws, m, row + [e], anti)
    ensures OtherWrites(ws, m, row + [e], anti) == OtherWrites(ws, m, row, anti)
      + (if ws[|row|].transactionIdx == m then []
         else [Disjunction([Lit(Positive(e.value)), Lit(Positive(anti[|row|].value))])])
    ensures [Lit(Positive(wr))] + OtherWrites(ws, m, row + [e], anti) == [Lit(Positive(wr))] + OtherWrites(ws, m, row, anti)
      + (if ws[|row|].transactionIdx == m then []
         else [Disjunction([Lit(Positive(e.value)), Lit(Positive(anti[|row|].value))])])
  {
    assert (row + [e])[..|row|] == row;
  }

  /** One more writer's entry in a candidate's row: its edge, when it has one. */
  lemma RowEdgesStep(g: GnfState, ws: seq<KeyAccess>, m: nat, row: seq<Option<Variable>>, e: Option<Variable>)
    requires |row| < |ws| && RowEdges(g, ws, m, row)
    requires e.Some? ==> HasEdge(g, ws[|row|].transactionIdx, m, e.value)
    ensures RowEdges(g, ws, m, row + [e])
  {
    var row' := row + [e];
    forall o | 0 <= o < |row'| && o < |ws| && row'[o].Some?
      ensures HasEdge(g, ws[o].transactionIdx, m, row'[o].value)
    {
      if o < |row| {
        assert row'[o] == row[o];
      }
    }
  }

  lemma OptionsBelowStep(vs: seq<Option<Variable>>, e: Option<Variable>, n: nat, n': nat)
    requires OptionsBelow(vs, n) && n <= n' && (e.Some? ==> VarBelow(e.value, n'))
    ensures OptionsBelow(vs + [e], n')
  {
    assert forall o | 0 <= o < |vs| :: (vs + [e])[o] == vs[o];
  }

  /** What the W-W edges of candidate `m` for the first `n` writers leave, as `(g', row)`, after `g`. */
  ghost predicate RowFacts(g: GnfState, ws: seq<KeyAccess>, m: nat, anti: seq<Option<Variable>>, n: nat,
                           r: (GnfState, seq<Option<Variable>>))
  {
    && |r.1| == n && RowShape(ws, m, r.1, anti) && Extends(g, r.0)
    && OptionsBelow(r.1, r.0.nVariables) && RowEdges(r.0, ws, m, r.1)
  }

  lemma RowSkipFacts(g: GnfState, prev: GnfState, row: seq<Option<Variable>>, ws: seq<KeyAccess>, m: nat,
                     anti: seq<Option<Variable>>, o: nat)
    requires o < |ws| && ws[o].transactionIdx == m && RowFacts(g, ws, m, anti, o, (prev, row))
    ensures RowFacts(g, ws, m, anti, o + 1, (prev, row + [None]))
  {
    OtherWritesStep(ws, m, row, anti, None, Variable(0));
    RowEdgesStep(prev, ws, m, row, None);
    OptionsBelowStep(row, None, prev.nVariables, prev.nVariables);
  }

  lemma RowOverwriteFacts(g: GnfState, prev: GnfState, row: seq<Option<Variable>>, key: seq<Byte>,
                          ws: seq<KeyAccess>, m: nat, anti: seq<Option<Variable>>, o: nat)
    requires o < |ws| && ws[o].transactionIdx != m && RowFacts(g, ws, m, anti, o, (prev, row)) && anti[o].Some?
    ensures var (next, v) := WithEdge(prev, ws[o].transactionIdx, m, CandidateOverwriteComment(ws[o].transactionIdx, m, key));
      RowFacts(g, ws, m, anti, o + 1, (next, row + [Some(v)]))
  {
    var comment := CandidateOverwriteComment(ws[o].transactionIdx, m, key);
    var (next, v) := WithEdge(prev, ws[o].transactionIdx, m, comment);
    WithEdgeHas(prev, ws[o].transactionIdx, m, comment);
    OtherWritesStep(ws, m, row, anti, Some(v), v);
    RowEdgesPersist(prev, next, ws, m, row);
    RowEdgesStep(next, ws, m, row, Some(v));
    OptionsBelowStep(row, Some(v), prev.nVariables, next.nVariables);
    ExtendsTransitive(g, prev, next);
  }

  /**
   * The W-W edges of candidate `m` only add to the problem; the entry of
   * writer `o` is absent exactly for `m`'s own writes, and otherwise labels an
   * edge from `o` to `m`.
   */
  lemma {:induction false} RowUpToEdges(g: GnfState, key: seq<Byte>, ws: seq<KeyAccess>, m: nat,
                                        anti: seq<Option<Variable>>, n: nat)
    requires n <= |ws| && |anti| == |ws|
    requires forall o | 0 <= o < |ws| && ws[o].transactionIdx != m :: anti[o].Some?
    ensures RowFacts(g, ws, m, anti, n, RowUpTo(g, key, ws, m, n))
  {
    if n > 0 {
      RowUpToEdges(g, key, ws, m, anti, n - 1);
      var (prev, row) := RowUpTo(g, key, ws, m, n - 1);
      if ws[n - 1].transactionIdx == m {
        RowSkipFacts(g, prev, row, ws, m, anti, n - 1);
      } else {
        RowOverwriteFacts(g, prev, row, key, ws, m, anti, n - 1);
      }
    }
  }

  /** A candidate's edges only add to the problem: its W-R edge to the reader and its W-W edges. */
  lemma WithCandidateEdges(g: GnfState, key: seq<Byte>, read: KeyAccess, ws: seq<KeyAccess>, m: nat,
                           anti: seq<Option<Variable>>, trivial: bool)
    requires |anti| == |ws| && forall o | 0 <= o < |ws| && ws[o].transactionIdx != m :: anti[o].Some?
    ensures var (g', wr, row) := WithCandidate(g, key, read, ws, m, trivial);
      && Extends(g, g') && |row| == |ws| && RowShape(ws, m, row, anti)
      && VarBelow(wr, g'.nVariables) && OptionsBelow(row, g'.nVariables)
      && HasEdge(g', m, read.transactionIdx, wr) && RowEdges(g', ws, m, row)
  {
    var comment := CandidateDependencyComment(trivial, m, read.transactionIdx, key);
    var (g1, wr) := WithEdge(g, m, read.transactionIdx, comment);
    WithEdgeHas(g, m, read.transactionIdx, comment);
    RowUpToEdges(g1, key, ws, m, anti, |ws|);
    var (g2, row) := RowUpTo(g1, key, ws, m, |ws|);
    HasEdgePersists(g1, g2, m, read.transactionIdx, wr);
    ExtendsTransitive(g, g1, g2);
  }

  /**
   * The inner loop of the closure for candidate `m`: a W-W edge from every
   * other writer, each paired with that writer's R-W edge, after the W-R
   * edge `wr` that opens `conjArgs`.
   */
  method AddOverwrites(gnf: Gnf, nodes: seq<Node>, key: seq<Byte>, ws: seq<KeyAccess>, m: nat,
                       anti: seq<Option<Variable>>, wr: Variable)
    returns (conjArgs: seq<Expression>, ghost row: seq<Option<Variable>>)
    modifies gnf
    requires NodesReady(gnf.State(), nodes) && AccessesBelow(ws, |nodes|) && m < |nodes| && |anti| == |ws|
    requires forall o | 0 <= o < |ws| && ws[o].transactionIdx != m :: anti[o].Some?
    ensures (gnf.State(), row) == RowUpTo(old(gnf.State()), key, ws, m, |ws|)
    ensures NodesReady(gnf.State(), nodes)
    ensures |row| == |ws| && RowShape(ws, m, row, anti)
    ensures conjArgs == [Lit(Positive(wr))] + OtherWrites(ws, m, row, anti)
  {
    ghost var start := gnf.State();
    conjArgs := [Lit(Positive(wr))];
    row := [];
    var o := 0;
    while o < |ws|
      invariant o <= |ws| && |row| == o && RowShape(ws, m, row, anti)
      invariant (gnf.State(), row) == RowUpTo(start, key, ws, m, o)
      invariant conjArgs == [Lit(Positive(wr))] + OtherWrites(ws, m, row, anti)
      invariant NodesReady(gnf.State(), nodes)
    {
      if ws[o].transactionIdx == m {
        OtherWritesStep(ws, m, row, anti, None, wr);
        row := row + [None];
      } else {
        var overwrite := AddCandidateEdge(gnf, nodes[ws[o].transactionIdx], nodes[m],
          CandidateOverwriteComment(ws[o].transactionIdx, m, key));
        OtherWritesStep(ws, m, row, anti, Some(overwrite), wr);
        conjArgs := conjArgs + [Disjunction([Lit(Positive(overwrite)), Lit(Positive(anti[o].value))])];
        row := row + [Some(overwrite)];
      }
      o := o + 1;
    }
  }

  /**
   * The closure that maps a matching writer `m` to its conjunction: its W-R
   * edge, and a W-W edge from every other writer, each paired with that
   * writer's R-W edge.
   */
  method AddCandidate(gnf: Gnf, nodes: seq<Node>, key: seq<Byte>, read: KeyAccess, ws: seq<KeyAccess>, m: nat,
                      anti: seq<Option<Variable>>, trivial: bool)
    returns (conj: Expression, ghost wr: Variable, ghost row: seq<Option<Variable>>)
    modifies gnf
    requires NodesReady(gnf.State(), nodes) && read.transactionIdx < |nodes| && AccessesBelow(ws, |nodes|)
    requires m < |nodes| && |anti| == |ws|
    requires forall o | 0 <= o < |ws| && ws[o].transactionIdx != m :: anti[o].Some?
    ensures (gnf.State(), wr, row) == WithCandidate(old(gnf.State()), key, read, ws, m, trivial)
    ensures NodesReady(gnf.State(), nodes)
    ensures |row| == |ws| && RowShape(ws, m, row, anti) && conj == CandidateConj(ws, m, wr, row, anti)
  {
    var dependency := AddCandidateEdge(gnf, nodes[m], nodes[read.transactionIdx],
      CandidateDependencyComment(trivial, m, read.transactionIdx, key));
    wr := dependency;
    var conjArgs;
    conjArgs, row := AddOverwrites(gnf, nodes, key, ws, m, anti, dependency);
    conj := Conjunction(conjArgs);
  }

  /**
   * Block `b` of the problem constrains the read: the variables in `rv` label
   * the read's candidate edges, and the block's clauses hold exactly when the
   * read is explained.
   */
  ghost predicate ReadConstrainedAt(g: GnfState, b: nat, read: KeyAccess, ws: seq<KeyAccess>, rv: ReadVars)
  {
    var ids := Matching(read, ws);
    && VarsShape(read, ws, ids, rv)
    && b < |g.metaClauses|
    && AntiEdges(g, read, ws, rv.anti)
    && CandidateEdges(g, read, ws, ids, rv.wr, rv.ww)
    && forall a :: ClausesHold(g.metaClauses[b].clauses, a) <==> Explained(a, read, ws, ids, rv)
  }

  lemma ReadConstrainedPersists(x: GnfState, y: GnfState, b: nat, read: KeyAccess, ws: seq<KeyAccess>, rv: ReadVars)
    requires Extends(x, y) && ReadConstrainedAt(x, b, read, ws, rv)
    ensures ReadConstrainedAt(y, b, read, ws, rv)
  {
    AntiEdgesPersist(x, y, read, ws, rv.anti);
    CandidateEdgesPersist(x, y, read, ws, Matching(read, ws), rv.wr, rv.ww);
    assert y.metaClauses[b] == x.metaClauses[b];
  }

  /** The edges of the first `n` candidates only add to the problem, and their variables label them. */
  lemma {:induction false} CandidatesUpToEdges(g: GnfState, key: seq<Byte>, read: KeyAccess, ws: seq<KeyAccess>,
                                               ids: seq<nat>, anti: seq<Option<Variable>>, trivial: bool, n: nat)
    requires n <= |ids| && |anti| == |ws| && OptionsBelow(anti, g.nVariables)
    requires forall o | 0 <= o < |ws| ::
      anti[o].None? ==> (|ids| == 1 && ws[o].transactionIdx == ids[0] && read.value.Some?)
    ensures var (g', wrs, rows) := CandidatesUpTo(g, key, read, ws, ids, trivial, n);
      && Extends(g, g') && |wrs| == n && RowsShape(ws, ids, wrs, rows, anti)
      && VarsBelow(wrs, rows, anti, g'.nVariables) && CandidateEdges(g', read, ws, ids, wrs, rows)
  {
    if n > 0 {
      CandidatesUpToEdges(g, key, read, ws, ids, anti, trivial, n - 1);
      var (prev, wrs, rows) := CandidatesUpTo(g, key, read, ws, ids, trivial, n - 1);
      var (next, wr, row) := WithCandidate(prev, key, read, ws, ids[n - 1], trivial);
      WithCandidateEdges(prev, key, read, ws, ids[n - 1], anti, trivial);
      CandidateEdgesPersist(prev, next, read, ws, ids, wrs, rows);
      CandidateEdgesStep(next, read, ws, ids, wrs, rows, wr, row);
      CandidatesStep(ws, ids, wrs, rows, anti, wr, row);
      VarsBelowStep(wrs, rows, anti, prev.nVariables, next.nVariables, wr, row);
      ExtendsTransitive(g, prev, next);
    }
  }

  /** The `map` over the matching writers that yields `disj_args`. */
  method AddCandidates(gnf: Gnf, nodes: seq<Node>, key: seq<Byte>, read: KeyAccess, ws: seq<KeyAccess>,
                       ids: seq<nat>, anti: seq<Option<Variable>>, trivial: bool)
    returns (disjArgs: seq<Expression>, ghost wrs: seq<Variable>, ghost rows: seq<seq<Option<Variable>>>)
    modifies gnf
    requires NodesReady(gnf.State(), nodes) && read.transactionIdx < |nodes| && AccessesBelow(ws, |nodes|)
    requires forall k | 0 <= k < |ids| :: ids[k] < |nodes|
    requires |anti| == |ws|
    requires forall o | 0 <= o < |ws| :: anti[o].None? ==> SkipsAnti(read, ws, ids, o)
    ensures (gnf.State(), wrs, rows) == CandidatesUpTo(old(gnf.State()), key, read, ws, ids, trivial, |ids|)
    ensures NodesReady(gnf.State(), nodes)
    ensures |wrs| == |ids| && RowsShape(ws, ids, wrs, rows, anti) && disjArgs == Candidates(ws, ids, wrs, rows, anti)
  {
    ghost var start := gnf.State();
    disjArgs, wrs, rows := [], [], [];
    var k := 0;
    while k < |ids|
      invariant k <= |ids| && |wrs| == k
      invariant (gnf.State(), wrs, rows) == CandidatesUpTo(start, key, read, ws, ids, trivial, k)
      invariant NodesReady(gnf.State(), nodes)
      invariant RowsShape(ws, ids, wrs, rows, anti) && disjArgs == Candidates(ws, ids, wrs, rows, anti)
    {
      assert forall o | 0 <= o < |ws| && ws[o].transactionIdx != ids[k] :: anti[o].Some?;
      var conj, wr, row := AddCandidate(gnf, nodes, key, read, ws, ids[k], anti, trivial);
      CandidatesStep(ws, ids, wrs, rows, anti, wr, row);
      disjArgs := disjArgs + [conj];
      wrs := wrs + [wr];
      rows := rows + [row];
      k := k + 1;
    }
  }

  /** The R-W edges and the candidates' edges of one read only add to the problem, and are labelled by `rv`. */
  lemma ReadEdgesLabelled(g: GnfState, key: seq<Byte>, read: KeyAccess, ws: seq<KeyAccess>)
    ensures var (g', rv) := ReadEdges(g, key, read, ws);
      && Extends(g, g') && VarsShape(read, ws, Matching(read, ws), rv)
      && VarsBelow(rv.wr, rv.ww, rv.anti, g'.nVariables)
      && AntiEdges(g', read, ws, rv.anti) && CandidateEdges(g', read, ws, Matching(read, ws), rv.wr, rv.ww)
  {
    var ids := Matching(read, ws);
    var trivial := Trivial(read, ids);
    AntiUpToEdges(g, key, read, ws, ids, trivial, |ws|);
    var (g1, anti) := AntiUpTo(g, key, read, ws, ids, trivial, |ws|);
    CandidatesUpToEdges(g1, key, read, ws, ids, anti, trivial, |ids|);
    var (g2, wrs, rows) := CandidatesUpTo(g1, key, read, ws, ids, trivial, |ids|);
    AntiEdgesPersist(g1, g2, read, ws, anti);
    AssembleVars(read, ws, ids, wrs, rows, anti);
    ExtendsTransitive(g, g1, g2);
  }

  lemma ReadEdgesExtend(g: GnfState, key: seq<Byte>, read: KeyAccess, ws: seq<KeyAccess>)
    ensures Extends(g, ReadEdges(g, key, read, ws).0)
  {
    ReadEdgesLabelled(g, key, read, ws);
  }

  /**
   * The problem after one read of the several-writes arm: its edges, then the
   * block `cnf` of its ordering formula, provided `cnf` holds exactly when the
   * formula does (`None` otherwise).
   */
  ghost function ReadEncoding(g: GnfState, key: seq<Byte>, read: KeyAccess, ws: seq<KeyAccess>, cnf: seq<Clause>)
    : Option<GnfState>
  {
    var (g1, rv) := ReadEdges(g, key, read, ws);
    var ids := Matching(read, ws);
    if VarsShape(read, ws, ids, rv) && forall a :: ClausesHold(cnf, a) == Eval(OrderingExpression(read, ws, ids, rv), a)
    then Some(g1.(metaClauses := g1.metaClauses + [ClausesWithComment(OrderingComment(key, read, ws), cnf)]))
    else None
  }

  /** A read's edges followed by a block equivalent to its ordering formula make up its `ReadEncoding`. */
  lemma ReadEncodingOf(s0: GnfState, s1: GnfState, s2: GnfState, key: seq<Byte>, read: KeyAccess, ws: seq<KeyAccess>,
                       rv: ReadVars, expr: Expression, cnf: seq<Clause>)
    requires (s1, rv) == ReadEdges(s0, key, read, ws)
    requires VarsShape(read, ws, Matching(read, ws), rv) && expr == OrderingExpression(read, ws, Matching(read, ws), rv)
    requires forall a :: ClausesHold(cnf, a) == Eval(expr, a)
    requires s2 == s1.(metaClauses := s1.metaClauses + [ClausesWithComment(OrderingComment(key, read, ws), cnf)])
    ensures ReadEncoding(s0, key, read, ws, cnf) == Some(s2)
  {
  }

  /** `gnf.add_clauses(expr.to_cnf(), ...)` for one read's formula. */
  method AddOrdering(gnf: Gnf, key: seq<Byte>, read: KeyAccess, ws: seq<KeyAccess>, ids: seq<nat>,
                     expr: Expression, ghost rv: ReadVars, fuel: nat) returns (outcome: Option<bool>, ghost cnf: seq<Clause>)
    modifies gnf
    requires WellFormed(gnf.State()) && |ws| > 0 && ids == Matching(read, ws)
    requires |ids| > 0 || read.value.None?
    requires OrderingReady(gnf.State(), read, ws, ids, expr, rv)
    ensures WellFormed(gnf.State()) && Extends(old(gnf.State()), gnf.State())
    ensures outcome != Some(false)
    ensures outcome == Some(true) ==> forall a :: ClausesHold(cnf, a) == Eval(expr, a)
    ensures outcome == Some(true) ==> gnf.State() == old(gnf.State()).(metaClauses :=
      old(gnf.metaClauses) + [ClausesWithComment(OrderingComment(key, read, ws), cnf)])
    ensures outcome == None ==> gnf.State() == old(gnf.State())
    ensures outcome == Some(true) ==>
      |gnf.metaClauses| > 0 && ReadConstrainedAt(gnf.State(), |gnf.metaClauses| - 1, read, ws, rv)
  {
    OrderingBounds(read, ws, ids, rv, gnf.nVariables);
    var result := ToCnf(expr, fuel);
    outcome, cnf := None, [];
    match result {
      case Clauses(clauses) =>
        ghost var before := gnf.State();
        ClausesInRangeOf(clauses, expr, gnf.nVariables);
        var comment := OrderingComment(key, read, ws);
        gnf.AddClauses(clauses, comment);
        OrderingAdded(before, gnf.State(), read, ws, ids, expr, rv, ClausesWithComment(comment, clauses));
        outcome, cnf := Some(true), clauses;
      case Panicked =>
        assert false;
      case OutOfFuel =>
    }
  }

  /** Clauses over the literals of a formula whose variables lie below `n` lie below `n` too. */
  lemma ClausesInRangeOf(clauses: seq<Clause>, expr: Expression, n: nat)
    requires forall i, k | 0 <= i < |clauses| && 0 <= k < |clauses[i].literals| :: clauses[i].literals[k] in Lits(expr)
    requires LitsBelow(Lits(expr), n)
    ensures forall j | 0 <= j < |clauses| :: ClauseInRange(clauses[j], n)
  {
  }

  /** A block equivalent to the ordering expression, appended to the problem, constrains the read. */
  lemma OrderingAdded(before: GnfState, after: GnfState, read: KeyAccess, ws: seq<KeyAccess>, ids: seq<nat>,
                      expr: Expression, rv: ReadVars, m: ClausesWithComment)
    requires ids == Matching(read, ws) && OrderingReady(before, read, ws, ids, expr, rv)
    requires forall a :: ClausesHold(m.clauses, a) == Eval(expr, a)
    requires after == before.(metaClauses := before.metaClauses + [m])
    ensures |after.metaClauses| > 0 && ReadConstrainedAt(after, |after.metaClauses| - 1, read, ws, rv)
  {
    OrderingMeaning(read, ws, ids, rv);
    assert Extends(before, after);
    AntiEdgesPersist(before, after, read, ws, rv.anti);
    CandidateEdgesPersist(before, after, read, ws, ids, rv.wr, rv.ww);
    assert after.metaClauses[|after.metaClauses| - 1] == m;
  }

  /** The body of the several-writes arm for one read. */
  method OrderRead(gnf: Gnf, nodes: seq<Node>, key: seq<Byte>, read: KeyAccess, ws: seq<KeyAccess>, fuel: nat)
    returns (outcome: Option<bool>, ghost rv: ReadVars, ghost cnf: seq<Clause>)
    modifies gnf
    requires NodesReady(gnf.State(), nodes) && read.transactionIdx < |nodes| && AccessesBelow(ws, |nodes|)
    requires |ws| >= 2
    ensures NodesReady(gnf.State(), nodes) && Extends(old(gnf.State()), gnf.State())
    ensures outcome == Some(false) <==> Unexplained(read, ws)
    ensures outcome == Some(false) ==> gnf.State() == old(gnf.State())
    ensures outcome == Some(true) ==> ReadEncoding(old(gnf.State()), key, read, ws, cnf) == Some(gnf.State())
    ensures outcome == None ==> gnf.State() == ReadEdges(old(gnf.State()), key, read, ws).0
    ensures outcome == Some(true) ==>
      |gnf.metaClauses| > 0 && ReadConstrainedAt(gnf.State(), |gnf.metaClauses| - 1, read, ws, rv)
  {
    var ids := Matching(read, ws);
    UnexplainedIffNoMatch(read, ws);
    if read.value.Some? && |ids| == 0 {
      outcome, rv, cnf := Some(false), ReadVars([], [], []), [];
    } else {
      outcome, rv, cnf := ConstrainRead(gnf, nodes, key, read, ws, ids, fuel);
    }
  }

  /** What `AddOrdering` needs of the formula built for a read and of the problem holding its edges. */
  ghost predicate OrderingReady(g: GnfState, read: KeyAccess, ws: seq<KeyAccess>, ids: seq<nat>,
                                expr: Expression, rv: ReadVars)
  {
    && VarsShape(read, ws, ids, rv) && VarsBelow(rv.wr, rv.ww, rv.anti, g.nVariables)
    && expr == OrderingExpression(read, ws, ids, rv)
    && AntiEdges(g, read, ws, rv.anti) && CandidateEdges(g, read, ws, ids, rv.wr, rv.ww)
  }

  /** The edges and the formula of a read that some writer, or the initial state, may explain. */
  method ConstrainRead(gnf: Gnf, nodes: seq<Node>, key: seq<Byte>, read: KeyAccess, ws: seq<KeyAccess>,
                       ids: seq<nat>, fuel: nat) returns (outcome: Option<bool>, ghost rv: ReadVars, ghost cnf: seq<Clause>)
    modifies gnf
    requires NodesReady(gnf.State(), nodes) && read.transactionIdx < |nodes| && AccessesBelow(ws, |nodes|)
    requires |ws| >= 2 && ids == Matching(read, ws) && (|ids| > 0 || read.value.None?)
    ensures NodesReady(gnf.State(), nodes) && Extends(old(gnf.State()), gnf.State())
    ensures outcome != Some(false)
    ensures outcome == Some(true) ==> ReadEncoding(old(gnf.State()), key, read, ws, cnf) == Some(gnf.State())
    ensures outcome == None ==> gnf.State() == ReadEdges(old(gnf.State()), key, read, ws).0
    ensures outcome == Some(true) ==>
      |gnf.metaClauses| > 0 && ReadConstrainedAt(gnf.State(), |gnf.metaClauses| - 1, read, ws, rv)
  {
    ghost var s0 := gnf.State();
    var expr;
    expr, rv := BuildOrdering(gnf, nodes, key, read, ws, ids);
    ghost var s1 := gnf.State();
    ReadEdgesExtend(s0, key, read, ws);
    outcome, cnf := AddOrdering(gnf, key, read, ws, ids, expr, rv, fuel);
    if outcome == Some(true) {
      ReadEncodingOf(s0, s1, gnf.State(), key, read, ws, rv, expr, cnf);
    }
    ExtendsTransitive(s0, s1, gnf.State());
    assert NodesReady(gnf.State(), nodes) by {
      assert gnf.State().nNodes == s1.nNodes;
    }
  }

  /** The R-W edges, then the candidates' edges and their disjunction, make up the read's `ReadEdges` and formula. */
  lemma OrderingBuilt(s0: GnfState, s1: GnfState, s2: GnfState, key: seq<Byte>, read: KeyAccess, ws: seq<KeyAccess>,
                      ids: seq<nat>, trivial: bool, rv: ReadVars, cands: seq<Expression>, disjArgs: seq<Expression>)
    requires ids == Matching(read, ws) && trivial == Trivial(read, ids)
    requires (s1, rv.anti) == AntiUpTo(s0, key, read, ws, ids, trivial, |ws|)
    requires |rv.anti| == |ws| && forall o | 0 <= o < |ws| :: rv.anti[o].None? ==> SkipsAnti(read, ws, ids, o)
    requires read.value.None? ==> forall o | 0 <= o < |rv.anti| :: rv.anti[o].Some?
    requires (s2, rv.wr, rv.ww) == CandidatesUpTo(s1, key, read, ws, ids, trivial, |ids|)
    requires |rv.wr| == |ids| && RowsShape(ws, ids, rv.wr, rv.ww, rv.anti)
    requires cands == Candidates(ws, ids, rv.wr, rv.ww, rv.anti)
    requires disjArgs == cands + (if read.value.None? then [Conjunction(InitialLits(rv.anti))] else [])
    ensures (s2, rv) == ReadEdges(s0, key, read, ws)
    ensures Extends(s0, s2) && OrderingReady(s2, read, ws, ids, Disjunction(disjArgs), rv)
  {
    AntiUpToEdges(s0, key, read, ws, ids, trivial, |ws|);
    assert forall o | 0 <= o < |ws| ::
      rv.anti[o].None? ==> (|ids| == 1 && ws[o].transactionIdx == ids[0] && read.value.Some?);
    AssembleVars(read, ws, ids, rv.wr, rv.ww, rv.anti);
    ReadEdgesLabelled(s0, key, read, ws);
    OrderingExpressionIs(read, ws, ids, rv, cands, disjArgs);
  }

  /** The R-W edges, the candidates' edges, and the disjunction over the read's possible explanations. */
  method BuildOrdering(gnf: Gnf, nodes: seq<Node>, key: seq<Byte>, read: KeyAccess, ws: seq<KeyAccess>,
                       ids: seq<nat>) returns (expr: Expression, ghost rv: ReadVars)
    modifies gnf
    requires NodesReady(gnf.State(), nodes) && read.transactionIdx < |nodes| && AccessesBelow(ws, |nodes|)
    requires ids == Matching(read, ws)
    ensures (gnf.State(), rv) == ReadEdges(old(gnf.State()), key, read, ws)
    ensures NodesReady(gnf.State(), nodes)
    ensures OrderingReady(gnf.State(), read, ws, ids, expr, rv)
  {
    MatchingBelow(read, ws, |nodes|);
    ghost var s0 := gnf.State();
    var trivial := Trivial(read, ids);
    var anti := AddAntiEdges(gnf, nodes, key, read, ws, ids, trivial);
    ghost var s1 := gnf.State();
    var disjArgs, wrs, rows := AddCandidates(gnf, nodes, key, read, ws, ids, anti, trivial);
    ghost var cands := disjArgs;
    if read.value.None? {
      disjArgs := disjArgs + [Conjunction(InitialLits(anti))];
    }
    rv := ReadVars(wrs, rows, anti);
    expr := Disjunction(disjArgs);
    OrderingBuilt(s0, s1, gnf.State(), key, read, ws, ids, trivial, rv, cands, disjArgs);
  }

  /** Some block of the problem constrains the read. */
  ghost predicate ReadConstrained(g: GnfState, read: KeyAccess, ws: seq<KeyAccess>)
  {
    exists b: nat, rv: ReadVars :: ReadConstrainedAt(g, b, read, ws, rv)
  }

  /** Every one of the first `n` reads of the key is constrained by a block of the problem. */
  ghost predicate ReadsConstrained(g: GnfState, rs: seq<KeyAccess>, ws: seq<KeyAccess>, n: nat)
  {
    forall i | 0 <= i < n && i < |rs| :: ReadConstrained(g, rs[i], ws)
  }

  lemma ReadsConstrainedPersist(x: GnfState, y: GnfState, rs: seq<KeyAccess>, ws: seq<KeyAccess>, n: nat)
    requires Extends(x, y) && ReadsConstrained(x, rs, ws, n)
    ensures ReadsConstrained(y, rs, ws, n)
  {
    forall i | 0 <= i < n && i < |rs| ensures ReadConstrained(y, rs[i], ws) {
      assert ReadConstrained(x, rs[i], ws);
      var b: nat, rv: ReadVars :| ReadConstrainedAt(x, b, rs[i], ws, rv);
      ReadConstrainedPersists(x, y, b, rs[i], ws, rv);
    }
  }

  /**
   * The problem after the first reads `rs` of the several-writes arm, block
   * `cnfs[i]` standing for read `i`'s ordering formula (`None` when one of
   * the blocks is not equivalent to its formula).
   */
  ghost function ReadsEncoding(g: GnfState, key: seq<Byte>, rs: seq<KeyAccess>, ws: seq<KeyAccess>,
                               cnfs: seq<seq<Clause>>): Option<GnfState>
    decreases |rs|
  {
    if |rs| != |cnfs| then None
    else if rs == [] then Some(g)
    else
      match ReadsEncoding(g, key, rs[..|rs| - 1], ws, cnfs[..|cnfs| - 1])
      case None => None
      case Some(prev) => ReadEncoding(prev, key, rs[|rs| - 1], ws, cnfs[|cnfs| - 1])
  }

  lemma ReadsEncodingStep(g: GnfState, key: seq<Byte>, rs: seq<KeyAccess>, ws: seq<KeyAccess>,
                          cnfs: seq<seq<Clause>>, i: nat, prev: GnfState, cnf: seq<Clause>)
    requires i < |rs| && ReadsEncoding(g, key, rs[..i], ws, cnfs) == Some(prev)
    ensures ReadsEncoding(g, key, rs[..i + 1], ws, cnfs + [cnf]) == ReadEncoding(prev, key, rs[i], ws, cnf)
  {
    assert rs[..i + 1][..i] == rs[..i];
    assert (cnfs + [cnf])[..|cnfs|] == cnfs;
  }

  /** A read's encoding only adds to the problem, and its last block constrains the read. */
  lemma ReadEncodingConstrains(g: GnfState, key: seq<Byte>, read: KeyAccess, ws: seq<KeyAccess>, cnf: seq<Clause>)
    requires ReadEncoding(g, key, read, ws, cnf).Some?
    ensures Extends(g, ReadEncoding(g, key, read, ws, cnf).value)
    ensures ReadConstrained(ReadEncoding(g, key, read, ws, cnf).value, read, ws)
  {
    var (g1, rv) := ReadEdges(g, key, read, ws);
    var ids := Matching(read, ws);
    var x := ReadEncoding(g, key, read, ws, cnf).value;
    ReadEdgesLabelled(g, key, read, ws);
    var m := ClausesWithComment(OrderingComment(key, read, ws), cnf);
    OrderingAdded(g1, x, read, ws, ids, OrderingExpression(read, ws, ids, rv), rv, m);
    assert ReadConstrainedAt(x, |x.metaClauses| - 1, read, ws, rv);
    ExtendsTransitive(g, g1, x);
  }

  /** The encoding of the several-writes arm only adds to the problem, and constrains every read. */
  lemma {:induction false} ReadsEncodingConstrains(g: GnfState, key: seq<Byte>, rs: seq<KeyAccess>,
                                                   ws: seq<KeyAccess>, cnfs: seq<seq<Clause>>)
    requires ReadsEncoding(g, key, rs, ws, cnfs).Some?
    ensures Extends(g, ReadsEncoding(g, key, rs, ws, cnfs).value)
    ensures ReadsConstrained(ReadsEncoding(g, key, rs, ws, cnfs).value, rs, ws, |rs|)
    decreases |rs|
  {
    if rs != [] {
      var rs', cnfs' := rs[..|rs| - 1], cnfs[..|cnfs| - 1];
      ReadsEncodingConstrains(g, key, rs', ws, cnfs');
      var prev := ReadsEncoding(g, key, rs', ws, cnfs').value;
      var x := ReadsEncoding(g, key, rs, ws, cnfs).value;
      ReadEncodingConstrains(prev, key, rs[|rs| - 1], ws, cnfs[|cnfs| - 1]);
      ReadsConstrainedPersist(prev, x, rs', ws, |rs'|);
      forall i | 0 <= i < |rs| ensures ReadConstrained(x, rs[i], ws) {
        if i < |rs'| {
          assert rs'[i] == rs[i];
        }
      }
      ExtendsTransitive(g, prev, x);
    }
  }

  /** The `(_, _)` arm: an ordering formula per read, or a rejection. `None`: `to_cnf` ran out of fuel. */
  method OrderReads(gnf: Gnf, nodes: seq<Node>, key: seq<Byte>, rs: seq<KeyAccess>, ws: seq<KeyAccess>, fuel: nat)
    returns (outcome: Option<bool>, ghost cnfs: seq<seq<Clause>>)
    modifies gnf
    requires NodesReady(gnf.State(), nodes) && AccessesBelow(rs, |nodes|) && AccessesBelow(ws, |nodes|)
    requires |ws| >= 2
    ensures NodesReady(gnf.State(), nodes) && Extends(old(gnf.State()), gnf.State())
    ensures outcome == Some(false) ==> exists i | 0 <= i < |rs| :: Unexplained(rs[i], ws)
    ensures outcome == Some(true) ==> forall i | 0 <= i < |rs| :: !Unexplained(rs[i], ws)
    ensures outcome == Some(true) ==> ReadsEncoding(old(gnf.State()), key, rs, ws, cnfs) == Some(gnf.State())
  {
    ghost var start := gnf.State();
    cnfs := [];
    var i := 0;
    while i < |rs|
      invariant i <= |rs| && NodesReady(gnf.State(), nodes)
      invariant ReadsExplained(rs, ws, i)
      invariant ReadsEncoding(start, key, rs[..i], ws, cnfs) == Some(gnf.State())
    {
      ghost var before := gnf.State();
      var verdict, rv, cnf := OrderRead(gnf, nodes, key, rs[i], ws, fuel);
      if verdict != Some(true) {
        ReadsEncodingConstrains(start, key, rs[..i], ws, cnfs);
        ExtendsTransitive(start, before, gnf.State());
        assert verdict == Some(false) ==> Unexplained(rs[i], ws);
        return verdict, cnfs;
      }
      ReadsEncodingStep(start, key, rs, ws, cnfs, i, before, cnf);
      cnfs := cnfs + [cnf];
      assert ReadsExplained(rs, ws, i + 1);
      i := i + 1;
    }
    assert rs[..i] == rs;
    ReadsEncodingConstrains(start, key, rs, ws, cnfs);
    outcome := Some(true);
  }

  /** None of the first `n` reads is unexplained. */
  predicate ReadsExplained(rs: seq<KeyAccess>, ws: seq<KeyAccess>, n: nat)
  {
    forall j | 0 <= j < n && j < |rs| :: !Unexplained(rs[j], ws)
  }

  // ---------------------------------------------------------------------------
  // One key
  // ---------------------------------------------------------------------------

  /** What the problem says about a key that was not rejected. */
  ghost predicate KeyConstrained(g: GnfState, rs: seq<KeyAccess>, ws: seq<KeyAccess>)
  {
    && (|ws| == 1 ==> SingleWriteEdges(g, rs, ws[0], |rs|))
    && (|ws| >= 2 ==> ReadsConstrained(g, rs, ws, |rs|))
  }

  lemma KeyConstrainedPersists(x: GnfState, y: GnfState, rs: seq<KeyAccess>, ws: seq<KeyAccess>)
    requires Extends(x, y) && KeyConstrained(x, rs, ws)
    ensures KeyConstrained(y, rs, ws)
  {
    if |ws| == 1 {
      SingleWriteEdgesPersist(x, y, rs, ws[0], |rs|);
    }
    if |ws| >= 2 {
      ReadsConstrainedPersist(x, y, rs, ws, |rs|);
    }
  }

  /**
   * The problem after an accepted key with reads `rs` and writes `ws`: the
   * single-write edges, or the blocks `cnfs` of the several-writes arm, or
   * nothing new.
   */
  ghost function KeyEncoding(g: GnfState, key: seq<Byte>, rs: seq<KeyAccess>, ws: seq<KeyAccess>,
                             cnfs: seq<seq<Clause>>): Option<GnfState>
  {
    if |ws| >= 2 then ReadsEncoding(g, key, rs, ws, cnfs)
    else if cnfs != [] then None
    else if |ws| == 1 then Some(SingleWriteUpTo(g, key, rs, ws[0], |rs|))
    else Some(g)
  }

  /** A key's encoding only adds to the problem, and constrains the key's reads. */
  lemma KeyEncodingConstrains(g: GnfState, key: seq<Byte>, rs: seq<KeyAccess>, ws: seq<KeyAccess>,
                              cnfs: seq<seq<Clause>>)
    requires KeyEncoding(g, key, rs, ws, cnfs).Some?
    ensures Extends(g, KeyEncoding(g, key, rs, ws, cnfs).value)
    ensures KeyConstrained(KeyEncoding(g, key, rs, ws, cnfs).value, rs, ws)
  {
    if |ws| >= 2 {
      ReadsEncodingConstrains(g, key, rs, ws, cnfs);
    } else if |ws| == 1 {
      SingleWriteUpToEdges(g, key, rs, ws[0], |rs|);
    }
  }

  /**
   * `match (writes.len(), reads.len())`. `Some(false)`: the history is
   * rejected (including the `unreachable!()` panic); `None`: `to_cnf` ran out
   * of fuel.
   */
  method CheckKey(gnf: Gnf, nodes: seq<Node>, key: seq<Byte>, rs: seq<KeyAccess>, ws: seq<KeyAccess>, fuel: nat)
    returns (outcome: Option<bool>, ghost cnfs: seq<seq<Clause>>)
    modifies gnf
    requires NodesReady(gnf.State(), nodes) && AccessesBelow(rs, |nodes|) && AccessesBelow(ws, |nodes|)
    ensures NodesReady(gnf.State(), nodes) && Extends(old(gnf.State()), gnf.State())
    ensures outcome == Some(false) ==> KeyRejected(rs, ws)
    ensures outcome == Some(true) ==> !KeyRejected(rs, ws) && KeyConstrained(gnf.State(), rs, ws)
    ensures outcome == Some(true) ==> KeyEncoding(old(gnf.State()), key, rs, ws, cnfs) == Some(gnf.State())
    ensures |ws| <= 1 ==> outcome.Some?
  {
    cnfs := [];
    if |ws| == 0 && |rs| == 0 {
      outcome := Some(false);
    } else if |rs| == 0 {
      outcome := Some(true);
    } else if |ws| == 0 {
      var i := 0;
      while i < |rs|
        invariant i <= |rs| && forall j | 0 <= j < i :: !Unexplained(rs[j], ws)
      {
        if rs[i].value.Some? {
          assert Unexplained(rs[i], ws);
          return Some(false), cnfs;
        }
        i := i + 1;
      }
      outcome := Some(true);
    } else if |ws| == 1 {
      var ok := SingleWrite(gnf, nodes, key, rs, ws[0]);
      assert [ws[0]] == ws;
      outcome := Some(ok);
    } else {
      outcome, cnfs := OrderReads(gnf, nodes, key, rs, ws, fuel);
      if outcome == Some(true) {
        KeyEncodingConstrains(old(gnf.State()), key, rs, ws, cnfs);
      }
    }
  }

  // ---------------------------------------------------------------------------
  // The whole history
  // ---------------------------------------------------------------------------

  /** `check_history` returns false at this key without asking MonoSAT. */
  ghost predicate KeyFails(h: seq<Transaction>, key: seq<Byte>)
  {
    match Split(h, Positions(h, key))
    case None => true
    case Some((rs, ws)) => KeyRejected(rs, ws)
  }

  /** What the problem says about the key's reads and writes. */
  ghost predicate KeyConstrainedIn(h: seq<Transaction>, key: seq<Byte>, g: GnfState)
  {
    match Split(h, Positions(h, key))
    case None => true
    case Some((rs, ws)) => KeyConstrained(g, rs, ws)
  }

  /** `KeyEncoding` for the key's accesses in the history. */
  ghost function KeyEncodingIn(g: GnfState, h: seq<Transaction>, key: seq<Byte>, cnfs: seq<seq<Clause>>)
    : Option<GnfState>
  {
    match Split(h, Positions(h, key))
    case None => None
    case Some((rs, ws)) => KeyEncoding(g, key, rs, ws, cnfs)
  }

  /** The problem after the keys `keys` in turn, `cnfss[j]` holding the blocks of key `j`. */
  ghost function KeysEncoding(g: GnfState, h: seq<Transaction>, keys: seq<seq<Byte>>, cnfss: seq<seq<seq<Clause>>>)
    : Option<GnfState>
    decreases |keys|
  {
    if |keys| != |cnfss| then None
    else if keys == [] then Some(g)
    else
      match KeysEncoding(g, h, keys[..|keys| - 1], cnfss[..|cnfss| - 1])
      case None => None
      case Some(prev) => KeyEncodingIn(prev, h, keys[|keys| - 1], cnfss[|cnfss| - 1])
  }

  lemma KeysEncodingStep(g: GnfState, h: seq<Transaction>, keys: seq<seq<Byte>>, cnfss: seq<seq<seq<Clause>>>,
                         k: nat, prev: GnfState, cnfs: seq<seq<Clause>>)
    requires k < |keys| && KeysEncoding(g, h, keys[..k], cnfss) == Some(prev)
    ensures KeysEncoding(g, h, keys[..k + 1], cnfss + [cnfs]) == KeyEncodingIn(prev, h, keys[k], cnfs)
  {
    assert keys[..k + 1][..k] == keys[..k];
    assert (cnfss + [cnfs])[..|cnfss|] == cnfss;
  }

  /** Some key of the history makes the checker give up without consulting MonoSAT. */
  ghost predicate Rejected(h: seq<Transaction>)
  {
    exists key | key in HistoryKeys(h) :: KeyFails(h, key)
  }

  /**
   * The problem handed to MonoSAT: a node per transaction, the acyclicity
   * constraint as the first block, a forced edge for every real-time
   * ordering, and the constraints of every key.
   */
  ghost predicate Built(h: seq<Transaction>, g: GnfState)
  {
    && WellFormed(g) && g.nNodes == |h|
    && |g.metaClauses| > 0
    && g.metaClauses[0] == ClausesWithComment("Acyclic property", [Clause([Positive(g.acyclicVariable)])])
    && RealTimeEdges(h, g)
    && forall key | key in HistoryKeys(h) :: KeyConstrainedIn(h, key, g)
  }

  /**
   * The whole problem, exactly: the skeleton with `|h|` nodes, the real-time
   * edges, then the keys in the order `keys`, whose blocks are `cnfss`.
   */
  ghost function Encoding(h: seq<Transaction>, keys: seq<seq<Byte>>, cnfss: seq<seq<seq<Clause>>>): Option<GnfState>
  {
    KeysEncoding(RealTimeFrom(Skeleton(|h|), h, |h|, 0), h, keys, cnfss)
  }

  /** The key passed `check_history`'s own tests and is constrained in `g`. */
  ghost predicate KeyDone(h: seq<Transaction>, key: seq<Byte>, g: GnfState)
  {
    !KeyFails(h, key) && KeyConstrainedIn(h, key, g)
  }

  lemma KeyDoneStep(h: seq<Transaction>, key: seq<Byte>, rs: seq<KeyAccess>, ws: seq<KeyAccess>, g: GnfState)
    requires Split(h, Positions(h, key)) == Some((rs, ws))
    requires !KeyRejected(rs, ws) && KeyConstrained(g, rs, ws)
    ensures KeyDone(h, key, g)
  {
  }

  lemma KeyFailsStep(h: seq<Transaction>, key: seq<Byte>, rs: seq<KeyAccess>, ws: seq<KeyAccess>)
    requires key in HistoryKeys(h)
    requires Split(h, Positions(h, key)).None? || (Split(h, Positions(h, key)) == Some((rs, ws)) && KeyRejected(rs, ws))
    ensures Rejected(h)
  {
    assert KeyFails(h, key);
  }

  /** The first `n` keys are done. */
  ghost predicate KeysDone(h: seq<Transaction>, keys: seq<seq<Byte>>, n: nat, g: GnfState)
  {
    forall j | 0 <= j < n && j < |keys| :: KeyDone(h, keys[j], g)
  }

  lemma KeysDoneStep(h: seq<Transaction>, keys: seq<seq<Byte>>, n: nat, x: GnfState, y: GnfState)
    requires Extends(x, y) && n < |keys|
    requires KeysDone(h, keys, n, x) && KeyDone(h, keys[n], y)
    ensures KeysDone(h, keys, n + 1, y)
  {
    forall j | 0 <= j < n ensures KeyDone(h, keys[j], y) {
      match Split(h, Positions(h, keys[j])) {
        case None =>
        case Some((rs, ws)) => KeyConstrainedPersists(x, y, rs, ws);
      }
    }
  }

  /** Once every key of the history is done, none fails and all are constrained. */
  lemma AllKeysDone(h: seq<Transaction>, keys: seq<seq<Byte>>, g: GnfState)
    requires KeysDone(h, keys, |keys|, g)
    requires forall key :: key in HistoryKeys(h) <==> key in keys
    ensures !Rejected(h)
    ensures forall key | key in HistoryKeys(h) :: KeyConstrainedIn(h, key, g)
  {
    forall key | key in HistoryKeys(h) ensures KeyDone(h, key, g) {
      var j :| 0 <= j < |keys| && keys[j] == key;
    }
  }

  /** One iteration of the loop over `key_to_tx_op`: the key's accesses, then its arm of the `match`. */
  method ConstrainKey(gnf: Gnf, nodes: seq<Node>, h: seq<Transaction>, key: seq<Byte>, ps: seq<(nat, nat)>,
                      fuel: nat) returns (outcome: Option<bool>, ghost cnfs: seq<seq<Clause>>)
    modifies gnf
    requires NodesReady(gnf.State(), nodes) && |nodes| == |h|
    requires key in HistoryKeys(h) && ps == Positions(h, key)
    ensures NodesReady(gnf.State(), nodes) && Extends(old(gnf.State()), gnf.State())
    ensures outcome == Some(false) ==> Rejected(h)
    ensures outcome == Some(true) ==> KeyDone(h, key, gnf.State())
    ensures outcome == Some(true) ==> KeyEncodingIn(old(gnf.State()), h, key, cnfs) == Some(gnf.State())
  {
    PositionsSound(h, key);
    var readList, writeList, ok := CollectAccesses(h, ps);
    if !ok {
      KeyFailsStep(h, key, readList, writeList);
      return Some(false), [];
    }
    SplitIndices(h, ps);
    outcome, cnfs := CheckKey(gnf, nodes, key, readList, writeList, fuel);
    if outcome == Some(false) {
      KeyFailsStep(h, key, readList, writeList);
    } else if outcome == Some(true) {
      KeyDoneStep(h, key, readList, writeList, gnf.State());
    }
  }

  /** `key_to_tx_op`'s keys, in order, are exactly the history's keys. */
  lemma KeyOrderCovers(h: seq<Transaction>, m: map<seq<Byte>, seq<(nat, nat)>>, keys: seq<seq<Byte>>)
    requires forall key :: Lookup(m, key) == Positions(h, key)
    requires EntriesNonEmpty(m)
    requires forall key :: key in keys <==> key in m.Keys
    ensures forall key :: key in HistoryKeys(h) <==> key in keys
  {
    forall key ensures key in HistoryKeys(h) <==> key in keys {
      HistoryKeysArePositions(h, key);
    }
  }

  /** The loop over `key_to_tx_op`, in ascending key order. */
  method ConstrainKeys(gnf: Gnf, nodes: seq<Node>, h: seq<Transaction>, fuel: nat)
    returns (outcome: Option<bool>, ghost keys: seq<seq<Byte>>, ghost cnfss: seq<seq<seq<Clause>>>)
    modifies gnf
    requires NodesReady(gnf.State(), nodes) && |nodes| == |h|
    ensures NodesReady(gnf.State(), nodes) && Extends(old(gnf.State()), gnf.State())
    ensures LexSorted(keys) && forall key :: key in keys <==> key in HistoryKeys(h)
    ensures outcome == Some(false) ==> Rejected(h)
    ensures outcome == Some(true) ==> !Rejected(h)
    ensures outcome == Some(true) ==> forall key | key in HistoryKeys(h) :: KeyConstrainedIn(h, key, gnf.State())
    ensures outcome == Some(true) ==> KeysEncoding(old(gnf.State()), h, keys, cnfss) == Some(gnf.State())
  {
    ghost var start := gnf.State();
    var m := BuildKeyMap(h);
    var order := SortedElements(m.Keys);
    keys := order;
    KeyOrderCovers(h, m, order);
    cnfss := [];
    var k := 0;
    while k < |order|
      invariant k <= |order| && |cnfss| == k
      invariant NodesReady(gnf.State(), nodes) && Extends(start, gnf.State())
      invariant KeysDone(h, order, k, gnf.State())
      invariant KeysEncoding(start, h, order[..k], cnfss) == Some(gnf.State())
    {
      var key := order[k];
      assert Lookup(m, key) == m[key];
      ghost var before := gnf.State();
      ghost var cnfs;
      outcome, cnfs := ConstrainKey(gnf, nodes, h, key, m[key], fuel);
      if outcome != Some(true) {
        return;
      }
      KeysEncodingStep(start, h, order, cnfss, k, before, cnfs);
      KeysDoneStep(h, order, k, before, gnf.State());
      cnfss := cnfss + [cnfs];
      k := k + 1;
    }
    assert order[..k] == order;
    AllKeysDone(h, order, gnf.State());
    outcome := Some(true);
  }

  /** The problem before any key: the acyclicity clause, the nodes and the real-time edges. */
  method StartProblem(h: seq<Transaction>) returns (gnf: Gnf, nodes: seq<Node>)
    ensures fresh(gnf) && NodesReady(gnf.State(), nodes) && |nodes| == |h|
    ensures gnf.State() == RealTimeFrom(Skeleton(|h|), h, |h|, 0)
    ensures |gnf.metaClauses| > 0
    ensures gnf.metaClauses[0] == ClausesWithComment("Acyclic property", [Clause([Positive(gnf.acyclicVariable)])])
    ensures RealTimeEdges(h, gnf.State())
  {
    gnf := new Gnf();
    gnf.AddClause(Clause([Positive(gnf.acyclicVariable)]), "Acyclic property");
    nodes := AddNodes(gnf, |h|);
    assert gnf.State() == Skeleton(|h|);
    AddRealTimeEdges(gnf, h, nodes);
  }

  /**
   * `check_history`, with MonoSAT as the predicate `monosat` over the DIMACS
   * text and `fuel` bounding each `to_cnf`. `Some(b)` is the verdict; `None`:
   * some `to_cnf` ran out of fuel.
   */
  method CheckHistory(h: seq<Transaction>, monosat: string -> bool, fuel: nat)
    returns (verdict: Option<bool>, dimacs: string, ghost g: GnfState,
             ghost keys: seq<seq<Byte>>, ghost cnfss: seq<seq<seq<Clause>>>)
    ensures verdict == Some(true) ==> !Rejected(h)
    ensures verdict.Some? && !Rejected(h) ==> verdict == Some(monosat(dimacs))
    ensures verdict.Some? && !Rejected(h) ==> dimacs == Dimacs(g) && Built(h, g)
    ensures verdict.Some? && !Rejected(h) ==>
      && LexSorted(keys) && (forall key :: key in keys <==> key in HistoryKeys(h))
      && Encoding(h, keys, cnfss) == Some(g)
  {
    var gnf, nodes := StartProblem(h);
    ghost var start := gnf.State();
    var outcome;
    outcome, keys, cnfss := ConstrainKeys(gnf, nodes, h, fuel);
    g := gnf.State();
    dimacs := "";
    if outcome != Some(true) {
      assert outcome.Some? ==> outcome.value == false;
      return outcome, dimacs, g, keys, cnfss;
    }
    RealTimeEdgesPersist(h, start, g);
    dimacs := gnf.ToDimacs();
    verdict := Some(monosat(dimacs));
  }
}
