/**
 * The transactions checker's propositional expressions and `Expression::to_cnf`,
 * which rewrites an expression tree in place, pass after pass, until it is a
 * conjunction of clauses, then emits each clause with its literals sorted and
 * deduplicated.
 */
module Cnf {
  import opened Prelude

  /** `Variable(usize)`: a MonoSAT variable number. */
  datatype Variable = Variable(index: nat)

  /** `Literal`: `Literal::Variable(v)` is `Positive(v)` here. */
  datatype Literal = Positive(variable: Variable) | Negation(variable: Variable)

  /**
   * The derived `Ord` of `Literal`: variant order first (every `Variable(_)`
   * before every `Negation(_)`), then the variable number.
   */
  predicate LiteralLess(a: Literal, b: Literal)
  {
    if a.Positive? != b.Positive? then a.Positive? else a.variable.index < b.variable.index
  }

  /** That order is strict and total. */
  lemma LiteralOrder(a: Literal, b: Literal, c: Literal)
    ensures !LiteralLess(a, a)
    ensures LiteralLess(a, b) && LiteralLess(b, c) ==> LiteralLess(a, c)
    ensures a == b || LiteralLess(a, b) || LiteralLess(b, a)
  {
  }

  predicate StrictlyIncreasing(lits: seq<Literal>)
  {
    forall i, j | 0 <= i < j < |lits| :: LiteralLess(lits[i], lits[j])
  }

  /** `Clause`: a disjunction of literals. */
  datatype Clause = Clause(literals: seq<Literal>)

  /** `Expression`; `Expression::Literal(l)` is `Lit(l)` here. */
  datatype Expression =
    | Conjunction(args: seq<Expression>)
    | Disjunction(args: seq<Expression>)
    | Lit(literal: Literal)

  /** `VisitorStatus`; `VisitorStatus::Literal` is `LiteralForm` here. */
  datatype VisitorStatus = Cnf | CnfClause | LiteralForm | Other

  // ---------------------------------------------------------------------------
  // Meaning and shape
  // ---------------------------------------------------------------------------

  type Assignment = Variable -> bool

  predicate Holds(l: Literal, a: Assignment)
  {
    if l.Positive? then a(l.variable) else !a(l.variable)
  }

  predicate Eval(e: Expression, a: Assignment)
  {
    match e
    case Conjunction(es) => forall i | 0 <= i < |es| :: Eval(es[i], a)
    case Disjunction(es) => exists i | 0 <= i < |es| :: Eval(es[i], a)
    case Lit(l) => Holds(l, a)
  }

  ghost predicate Equivalent(e: Expression, f: Expression)
  {
    forall a :: Eval(e, a) == Eval(f, a)
  }

  predicate ClauseHolds(c: Clause, a: Assignment)
  {
    exists i | 0 <= i < |c.literals| :: Holds(c.literals[i], a)
  }

  predicate ClausesHold(cs: seq<Clause>, a: Assignment)
  {
    forall i | 0 <= i < |cs| :: ClauseHolds(cs[i], a)
  }

  /** A disjunction of literals. */
  predicate LiteralDisjunction(e: Expression)
  {
    e.Disjunction? && forall i | 0 <= i < |e.args| :: e.args[i].Lit?
  }

  /** What may stand in a conjunction in CNF: a literal or a disjunction of literals. */
  predicate ClauseShaped(e: Expression)
  {
    e.Lit? || LiteralDisjunction(e)
  }

  predicate CnfShaped(e: Expression)
  {
    e.Conjunction? && forall i | 0 <= i < |e.args| :: ClauseShaped(e.args[i])
  }

  /** The literals of a clause-shaped expression. */
  function ClauseLiterals(e: Expression): set<Literal>
    requires ClauseShaped(e)
  {
    if e.Lit? then {e.literal} else set i | 0 <= i < |e.args| :: e.args[i].literal
  }

  /** No conjunction or disjunction anywhere in the tree is empty. */
  predicate NonEmpty(e: Expression)
  {
    match e
    case Conjunction(es) => |es| > 0 && forall i | 0 <= i < |es| :: NonEmpty(es[i])
    case Disjunction(es) => |es| > 0 && forall i | 0 <= i < |es| :: NonEmpty(es[i])
    case Lit(_) => true
  }

  predicate AllNonEmpty(es: seq<Expression>)
  {
    forall i | 0 <= i < |es| :: NonEmpty(es[i])
  }

  /** The literals that occur in an expression. */
  function Lits(e: Expression): set<Literal>
  {
    match e
    case Conjunction(es) => ArgsLits(es)
    case Disjunction(es) => ArgsLits(es)
    case Lit(l) => {l}
  }

  function ArgsLits(es: seq<Expression>): set<Literal>
  {
    set j, l | 0 <= j < |es| && l in Lits(es[j]) :: l
  }

  function Size(e: Expression): nat
  {
    match e
    case Conjunction(es) => 1 + SizeSum(es)
    case Disjunction(es) => 1 + SizeSum(es)
    case Lit(_) => 1
  }

  function SizeSum(es: seq<Expression>): nat
  {
    if es == [] then 0 else Size(es[0]) + SizeSum(es[1..])
  }

  lemma {:induction false} SizeSumAppend(xs: seq<Expression>, ys: seq<Expression>)
    ensures SizeSum(xs + ys) == SizeSum(xs) + SizeSum(ys)
  {
    if xs == [] {
      assert xs + ys == ys;
    } else {
      SizeSumAppend(xs[1..], ys);
      assert (xs + ys)[1..] == xs[1..] + ys;
    }
  }

  /** Lifting the last argument of the nested expression at `i` shrinks what is left to scan. */
  lemma LiftShrinks(xs: seq<Expression>, i: nat)
    requires i < |xs| && !xs[i].Lit? && xs[i].args != []
    ensures var ns := xs[i].args;
      SizeSum((xs[i := ns[|ns| - 1]] + ns[..|ns| - 1])[i + 1..]) < SizeSum(xs[i..])
  {
    var ns := xs[i].args;
    var ys := xs[i := ns[|ns| - 1]] + ns[..|ns| - 1];
    assert ys[i + 1..] == xs[i + 1..] + ns[..|ns| - 1];
    SizeSumAppend(xs[i + 1..], ns[..|ns| - 1]);
    assert ns == ns[..|ns| - 1] + [ns[|ns| - 1]];
    SizeSumAppend(ns[..|ns| - 1], [ns[|ns| - 1]]);
    assert SizeSum([ns[|ns| - 1]]) == Size(ns[|ns| - 1]) by {
      assert [ns[|ns| - 1]][1..] == [];
    }
    assert xs[i..][1..] == xs[i + 1..];
  }

  lemma SkipShrinks(xs: seq<Expression>, i: nat)
    requires i < |xs|
    ensures SizeSum(xs[i + 1..]) < SizeSum(xs[i..])
  {
    assert xs[i..][1..] == xs[i + 1..];
  }

  // ---------------------------------------------------------------------------
  // The rewrite steps preserve meaning
  // ---------------------------------------------------------------------------

  /** Argument-wise equivalent conjunctions and disjunctions are equivalent. */
  lemma ArgsEquivalent(xs: seq<Expression>, ys: seq<Expression>)
    requires |xs| == |ys| && forall j | 0 <= j < |xs| :: Equivalent(xs[j], ys[j])
    ensures Equivalent(Conjunction(xs), Conjunction(ys)) && Equivalent(Disjunction(xs), Disjunction(ys))
  {
    forall a ensures Eval(Conjunction(xs), a) == Eval(Conjunction(ys), a) && Eval(Disjunction(xs), a) == Eval(Disjunction(ys), a) {
      assert forall j | 0 <= j < |xs| :: Eval(xs[j], a) == Eval(ys[j], a);
    }
  }

  /** Rules 1 and 2: replace a nested node by its last argument and append the others. */
  lemma LiftEquivalent(xs: seq<Expression>, i: nat)
    requires i < |xs| && !xs[i].Lit? && xs[i].args != []
    ensures var ns := xs[i].args;
      var ys := xs[i := ns[|ns| - 1]] + ns[..|ns| - 1];
      (xs[i].Conjunction? ==> Equivalent(Conjunction(ys), Conjunction(xs)))
      && (xs[i].Disjunction? ==> Equivalent(Disjunction(ys), Disjunction(xs)))
  {
    var ns := xs[i].args;
    var ys := xs[i := ns[|ns| - 1]] + ns[..|ns| - 1];
    var last := |ns| - 1;
    // Every argument of ys is an argument of xs or of the nested node, and back.
    assert forall j | 0 <= j < |ys| ::
      ((j < |xs| && j != i && ys[j] == xs[j]) || (j == i && ys[j] == ns[last]) || (j >= |xs| && ys[j] == ns[j - |xs|]));
    assert forall j | 0 <= j < |xs| && j != i :: xs[j] == ys[j];
    assert forall k | 0 <= k < last :: ns[k] == ys[|xs| + k];
    assert ns[last] == ys[i];
  }

  /** `D | (C1 & … & Cn)` and `(D | C1) & … & (D | Cn)` agree under every assignment. */
  lemma DistributedEval(other: Expression, cs: seq<Expression>, a: Assignment)
    ensures Eval(Conjunction(seq(|cs|, k requires 0 <= k < |cs| => Disjunction([other, cs[k]]))), a)
      == (Eval(other, a) || Eval(Conjunction(cs), a))
  {
    var distributed := Conjunction(seq(|cs|, k requires 0 <= k < |cs| => Disjunction([other, cs[k]])));
    if Eval(other, a) {
      assert forall k | 0 <= k < |cs| :: Eval(distributed.args[k].args[0], a);
    } else if !Eval(Conjunction(cs), a) {
      var k :| 0 <= k < |cs| && !Eval(cs[k], a);
      assert !Eval(distributed.args[k], a);
    } else {
      assert forall k | 0 <= k < |cs| :: Eval(distributed.args[k].args[1], a);
    }
  }

  /** Rule 5: `D | (C1 & … & Cn)` is `(D | C1) & … & (D | Cn)`, in a disjunction `swap_remove` and `pop` rearranged. */
  lemma DistributeEquivalent(xs: seq<Expression>, fc: nat)
    requires fc < |xs| && |xs| >= 2 && xs[fc].Conjunction?
    ensures var swapped := xs[fc := xs[|xs| - 1]][..|xs| - 1];
      var other := swapped[|swapped| - 1];
      var cs := xs[fc].args;
      var distributed := Conjunction(seq(|cs|, k requires 0 <= k < |cs| => Disjunction([other, cs[k]])));
      Equivalent(Disjunction(swapped[..|swapped| - 1] + [distributed]), Disjunction(xs))
  {
    var swapped := xs[fc := xs[|xs| - 1]][..|xs| - 1];
    var other := swapped[|swapped| - 1];
    var cs := xs[fc].args;
    var distributed := Conjunction(seq(|cs|, k requires 0 <= k < |cs| => Disjunction([other, cs[k]])));
    var rest := swapped[..|swapped| - 1];
    var ys := rest + [distributed];
    forall a ensures Eval(Disjunction(ys), a) == Eval(Disjunction(xs), a) {
      DistributedEval(other, cs, a);
      if Eval(Disjunction(xs), a) {
        var j :| 0 <= j < |xs| && Eval(xs[j], a);
        if j == fc {
          assert Eval(ys[|ys| - 1], a);
        } else if j == |xs| - 1 {
          if fc < |xs| - 2 {
            assert ys[fc] == xs[j];
          } else {
            assert other == xs[j];
            assert Eval(ys[|ys| - 1], a);
          }
        } else if j == |xs| - 2 && fc < |xs| - 2 {
          assert other == xs[j];
          assert Eval(ys[|ys| - 1], a);
        } else if j == |xs| - 2 {
          assert ys[j] == xs[j] || other == xs[j];
          if other == xs[j] { assert Eval(ys[|ys| - 1], a); }
        } else {
          assert ys[j] == xs[j];
        }
      }
      if Eval(Disjunction(ys), a) {
        var j :| 0 <= j < |ys| && Eval(ys[j], a);
        if j == |ys| - 1 {
          if Eval(other, a) {
            assert other == xs[|xs| - 1] || other == xs[|xs| - 2];
          }
        } else {
          assert ys[j] == rest[j] == swapped[j];
          assert swapped[j] == xs[j] || swapped[j] == xs[|xs| - 1];
        }
      }
    }
  }

  /** Replacing arguments by ones with fewer literals gives fewer literals overall. */
  lemma ArgsLitsWithin(xs: seq<Expression>, ys: seq<Expression>)
    requires |xs| == |ys| && forall j | 0 <= j < |xs| :: Lits(xs[j]) <= Lits(ys[j])
    ensures ArgsLits(xs) <= ArgsLits(ys)
  {
    forall l | l in ArgsLits(xs) ensures l in ArgsLits(ys) {
      var j :| 0 <= j < |xs| && l in Lits(xs[j]);
      assert l in Lits(ys[j]);
    }
  }

  /** Lifting moves literals around but brings in none. */
  lemma LiftLits(xs: seq<Expression>, i: nat)
    requires i < |xs| && !xs[i].Lit? && xs[i].args != []
    ensures var ns := xs[i].args;
      ArgsLits(xs[i := ns[|ns| - 1]] + ns[..|ns| - 1]) <= ArgsLits(xs)
  {
    var ns := xs[i].args;
    var ys := xs[i := ns[|ns| - 1]] + ns[..|ns| - 1];
    forall l | l in ArgsLits(ys) ensures l in ArgsLits(xs) {
      var j :| 0 <= j < |ys| && l in Lits(ys[j]);
      if j == i || j >= |xs| {
        var k := if j == i then |ns| - 1 else j - |xs|;
        assert ys[j] == ns[k];
        assert l in Lits(xs[i]);
      } else {
        assert ys[j] == xs[j];
      }
    }
  }

  /** Distribution only recombines arguments that were already there. */
  lemma DistributeLits(xs: seq<Expression>, fc: nat)
    requires fc < |xs| && |xs| >= 2 && xs[fc].Conjunction?
    ensures var swapped := xs[fc := xs[|xs| - 1]][..|xs| - 1];
      var other := swapped[|swapped| - 1];
      var cs := xs[fc].args;
      var distributed := Conjunction(seq(|cs|, k requires 0 <= k < |cs| => Disjunction([other, cs[k]])));
      ArgsLits(swapped[..|swapped| - 1] + [distributed]) <= ArgsLits(xs)
  {
    var swapped := xs[fc := xs[|xs| - 1]][..|xs| - 1];
    var other := swapped[|swapped| - 1];
    var cs := xs[fc].args;
    var distributed := Conjunction(seq(|cs|, k requires 0 <= k < |cs| => Disjunction([other, cs[k]])));
    var ys := swapped[..|swapped| - 1] + [distributed];
    assert forall j | 0 <= j < |swapped| :: swapped[j] == xs[j] || swapped[j] == xs[|xs| - 1];
    assert Lits(other) <= ArgsLits(xs);
    forall l | l in ArgsLits(ys) ensures l in ArgsLits(xs) {
      var j :| 0 <= j < |ys| && l in Lits(ys[j]);
      if j == |ys| - 1 {
        assert ys[j] == distributed;
        assert l in ArgsLits(distributed.args);
        var k :| 0 <= k < |cs| && l in Lits(distributed.args[k]);
        var d := distributed.args[k];
        assert d == Disjunction([other, cs[k]]);
        assert l in ArgsLits(d.args);
        var m :| 0 <= m < 2 && l in Lits(d.args[m]);
        if m == 1 {
          assert l in Lits(xs[fc]);
        }
      } else {
        assert ys[j] == swapped[j];
      }
    }
  }

  // ---------------------------------------------------------------------------
  // rewrite_visitor
  // ---------------------------------------------------------------------------

  /**
   * The flattening loop for a conjunction that is not yet in CNF: each nested
   * conjunction is replaced by its last argument and its other arguments go to
   * the end, where the loop meets them again. A nested conjunction with no
   * argument makes `pop().unwrap()` panic (`ok` false).
   */
  method FlattenConjunction(exprs: seq<Expression>) returns (xs: seq<Expression>, ok: bool)
    ensures ok ==> Equivalent(Conjunction(xs), Conjunction(exprs))
    ensures ok ==> ArgsLits(xs) <= ArgsLits(exprs)
    ensures AllNonEmpty(exprs) ==> ok && AllNonEmpty(xs) && |xs| >= |exprs|
  {
    xs := exprs;
    var i := 0;
    while i < |xs|
      invariant 0 <= i <= |xs|
      invariant Equivalent(Conjunction(xs), Conjunction(exprs))
      invariant ArgsLits(xs) <= ArgsLits(exprs)
      invariant AllNonEmpty(exprs) ==> AllNonEmpty(xs) && |xs| >= |exprs|
      decreases SizeSum(xs[i..])
    {
      if xs[i].Conjunction? {
        var nested := xs[i].args;
        if |nested| == 0 {
          return xs, false;
        }
        LiftEquivalent(xs, i);
        LiftShrinks(xs, i);
        LiftLits(xs, i);
        xs := xs[i := nested[|nested| - 1]] + nested[..|nested| - 1];
      } else {
        SkipShrinks(xs, i);
      }
      i := i + 1;
    }
    ok := true;
  }

  /**
   * The flattening loop for a disjunction that is not yet a clause: nested
   * disjunctions are lifted as above, and `first` records the position of the
   * first conjunction argument met (or lifted into place).
   */
  method FlattenDisjunction(exprs: seq<Expression>) returns (xs: seq<Expression>, first: Option<nat>, ok: bool)
    ensures ok ==> Equivalent(Disjunction(xs), Disjunction(exprs))
    ensures ok ==> ArgsLits(xs) <= ArgsLits(exprs)
    ensures ok && first.Some? ==> first.value < |xs| && xs[first.value].Conjunction?
    ensures AllNonEmpty(exprs) ==> ok && AllNonEmpty(xs) && |xs| >= |exprs|
  {
    xs := exprs;
    first := None;
    var i := 0;
    while i < |xs|
      invariant 0 <= i <= |xs|
      invariant Equivalent(Disjunction(xs), Disjunction(exprs))
      invariant ArgsLits(xs) <= ArgsLits(exprs)
      invariant first.Some? ==> first.value < i && xs[first.value].Conjunction?
      invariant AllNonEmpty(exprs) ==> AllNonEmpty(xs) && |xs| >= |exprs|
      decreases SizeSum(xs[i..])
    {
      match xs[i] {
        case Disjunction(nested) =>
          if |nested| == 0 {
            return xs, first, false;
          }
          var replacement := nested[|nested| - 1];
          if first.None? && replacement.Conjunction? {
            first := Some(i);
          }
          LiftEquivalent(xs, i);
          LiftShrinks(xs, i);
          LiftLits(xs, i);
          xs := xs[i := replacement] + nested[..|nested| - 1];
        case Conjunction(_) =>
          if first.None? {
            first := Some(i);
          }
          SkipShrinks(xs, i);
        case Lit(_) =>
          SkipShrinks(xs, i);
      }
      i := i + 1;
    }
    ok := true;
  }

  /** Rule 5 on a flattened disjunction: `swap_remove` the conjunction, `pop` another argument, and push their distribution. */
  method Distribute(exprs: seq<Expression>, fc: nat) returns (xs: seq<Expression>)
    requires fc < |exprs| && |exprs| >= 2 && exprs[fc].Conjunction?
    ensures Equivalent(Disjunction(xs), Disjunction(exprs))
    ensures ArgsLits(xs) <= ArgsLits(exprs)
    ensures AllNonEmpty(exprs) ==> AllNonEmpty(xs) && xs != []
  {
    var conjunctionArgs := exprs[fc].args;
    xs := exprs[fc := exprs[|exprs| - 1]][..|exprs| - 1];
    var other := xs[|xs| - 1];
    xs := xs[..|xs| - 1];
    var distributed := Conjunction(seq(|conjunctionArgs|, k requires 0 <= k < |conjunctionArgs| =>
      Disjunction([other, conjunctionArgs[k]])));
    DistributeEquivalent(exprs, fc);
    if AllNonEmpty(exprs) {
      assert NonEmpty(other) by {
        assert other == exprs[|exprs| - 1] || other == exprs[|exprs| - 2];
      }
      assert NonEmpty(exprs[fc]);
      assert NonEmpty(distributed);
      assert forall j | 0 <= j < |xs| :: xs[j] == exprs[j] || xs[j] == exprs[|exprs| - 1];
    }
    xs := xs + [distributed];
    DistributeLits(exprs, fc);
  }

  /**
   * Visits the arguments of a node, rewriting each. `shaped` says whether every
   * argument came back as a literal (`literalsOnly`) or as a literal or clause.
   */
  method VisitArgs(es: seq<Expression>, literalsOnly: bool) returns (kids: seq<Expression>, shaped: bool, ok: bool)
    ensures ok ==> |kids| == |es| && forall j | 0 <= j < |es| :: Equivalent(kids[j], es[j])
    ensures ok ==> forall j | 0 <= j < |es| :: Lits(kids[j]) <= Lits(es[j])
    ensures ok && shaped ==> forall j | 0 <= j < |kids| :: if literalsOnly then kids[j].Lit? else ClauseShaped(kids[j])
    ensures AllNonEmpty(es) ==> ok && AllNonEmpty(kids)
    ensures (forall j | 0 <= j < |es| :: if literalsOnly then es[j].Lit? else ClauseShaped(es[j])) ==>
      ok && shaped && kids == es
    decreases es, 0
  {
    kids := [];
    shaped := true;
    var i := 0;
    while i < |es|
      invariant 0 <= i <= |es| && |kids| == i
      invariant forall j | 0 <= j < i :: Equivalent(kids[j], es[j])
      invariant forall j | 0 <= j < i :: Lits(kids[j]) <= Lits(es[j])
      invariant shaped ==> forall j | 0 <= j < i :: if literalsOnly then kids[j].Lit? else ClauseShaped(kids[j])
      invariant AllNonEmpty(es) ==> forall j | 0 <= j < i :: NonEmpty(kids[j])
      invariant (forall j | 0 <= j < |es| :: if literalsOnly then es[j].Lit? else ClauseShaped(es[j])) ==>
        shaped && kids == es[..i]
    {
      var kid, status, kidOk := RewriteVisitor(es[i]);
      if !kidOk {
        return kids, false, false;
      }
      if literalsOnly {
        if status != LiteralForm { shaped := false; }
      } else {
        if !(status == CnfClause || status == LiteralForm) { shaped := false; }
      }
      kids := kids + [kid];
      i := i + 1;
    }
    assert es[..i] == es;
    ok := true;
  }

  /**
   * `rewrite_visitor`: one rewriting pass over the tree, children first. The
   * result is equivalent to the input, and the status describes its shape. A
   * panic in a flattening loop is `ok` false; on a tree without empty nodes
   * there is none. An input already in CNF comes back unchanged.
   */
  method RewriteVisitor(e: Expression) returns (r: Expression, status: VisitorStatus, ok: bool)
    ensures ok ==> Equivalent(r, e)
    ensures ok ==> Lits(r) <= Lits(e)
    ensures ok && status == Cnf ==> CnfShaped(r)
    ensures ok && status == CnfClause ==> LiteralDisjunction(r)
    ensures ok && status == LiteralForm ==> r.Lit?
    ensures NonEmpty(e) ==> ok && NonEmpty(r)
    ensures (CnfShaped(e) || ClauseShaped(e)) ==> ok && r == e && status != Other
    ensures ClauseShaped(e) ==> (if e.Lit? then status == LiteralForm else status == CnfClause)
    decreases e, 2
  {
    match e
    case Lit(_) =>
      return e, LiteralForm, true;
    case Conjunction(es) =>
      var kids, shaped, kidsOk := VisitArgs(es, false);
      if !kidsOk {
        return e, Other, false;
      }
      ArgsEquivalent(kids, es);
      ArgsLitsWithin(kids, es);
      if shaped {
        return Conjunction(kids), Cnf, true;
      }
      if |kids| == 1 {
        return kids[0], Other, true;
      }
      var flat, flatOk := FlattenConjunction(kids);
      return Conjunction(flat), Other, flatOk;
    case Disjunction(es) =>
      r, status, ok := RewriteDisjunction(es);
  }

  /** The `Or` arm of `rewrite_visitor`. */
  method RewriteDisjunction(es: seq<Expression>) returns (r: Expression, status: VisitorStatus, ok: bool)
    ensures ok ==> Equivalent(r, Disjunction(es))
    ensures ok ==> Lits(r) <= Lits(Disjunction(es))
    ensures ok && status == Cnf ==> CnfShaped(r)
    ensures ok && status == CnfClause ==> LiteralDisjunction(r)
    ensures ok && status == LiteralForm ==> r.Lit?
    ensures NonEmpty(Disjunction(es)) ==> ok && NonEmpty(r)
    ensures (CnfShaped(Disjunction(es)) || ClauseShaped(Disjunction(es))) ==>
      ok && r == Disjunction(es) && status == CnfClause
    decreases Disjunction(es), 0
  {
    var kids, shaped, kidsOk := VisitArgs(es, true);
    if !kidsOk {
      return Disjunction(es), Other, false;
    }
    ArgsEquivalent(kids, es);
    ArgsLitsWithin(kids, es);
    if shaped {
      return Disjunction(kids), CnfClause, true;
    }
    if |kids| == 1 {
      return kids[0], Other, true;
    }
    var flat, first, flatOk := FlattenDisjunction(kids);
    if !flatOk {
      return Disjunction(es), Other, false;
    }
    if first.Some? && |flat| >= 2 {
      flat := Distribute(flat, first.value);
    }
    return Disjunction(flat), Other, true;
  }

  // ---------------------------------------------------------------------------
  // to_cnf
  // ---------------------------------------------------------------------------

  function LiteralSet(c: Clause): set<Literal>
  {
    set i | 0 <= i < |c.literals| :: c.literals[i]
  }

  /** A clause means what a clause-shaped expression with the same literals means. */
  lemma ClauseMeaning(c: Clause, e: Expression)
    requires ClauseShaped(e) && LiteralSet(c) == ClauseLiterals(e)
    ensures forall a :: ClauseHolds(c, a) == Eval(e, a)
  {
    forall a ensures ClauseHolds(c, a) == Eval(e, a) {
      if ClauseHolds(c, a) {
        var i :| 0 <= i < |c.literals| && Holds(c.literals[i], a);
        assert c.literals[i] in ClauseLiterals(e);
        if e.Disjunction? {
          var j :| 0 <= j < |e.args| && e.args[j].literal == c.literals[i];
          assert Eval(e.args[j], a);
        }
      }
      if Eval(e, a) {
        var l := if e.Lit? then e.literal else
          var j :| 0 <= j < |e.args| && Eval(e.args[j], a); e.args[j].literal;
        assert l in LiteralSet(c);
        var i :| 0 <= i < |c.literals| && c.literals[i] == l;
        assert Holds(c.literals[i], a);
      }
    }
  }

  /** Placing `x` between the literals below it and those above it keeps the order strict. */
  lemma InsertKeepsOrder(sorted: seq<Literal>, j: nat, x: Literal)
    requires StrictlyIncreasing(sorted) && j <= |sorted|
    requires forall k | 0 <= k < j :: LiteralLess(sorted[k], x)
    requires j < |sorted| ==> LiteralLess(x, sorted[j])
    ensures StrictlyIncreasing(sorted[..j] + [x] + sorted[j..])
  {
    var r := sorted[..j] + [x] + sorted[j..];
    forall p, q | 0 <= p < q < |r| ensures LiteralLess(r[p], r[q]) {
      if q < j {
        assert r[p] == sorted[p] && r[q] == sorted[q];
      } else if q == j {
        assert r[p] == sorted[p];
      } else if p == j {
        assert r[q] == sorted[q - 1];
        if q - 1 > j { LiteralOrder(x, sorted[j], sorted[q - 1]); }
      } else if p < j {
        assert r[p] == sorted[p] && r[q] == sorted[q - 1];
      } else {
        assert r[p] == sorted[p - 1] && r[q] == sorted[q - 1];
      }
    }
  }

  /** `BTreeSet::insert` into the sorted literals of a clause. */
  method InsertLiteral(sorted: seq<Literal>, x: Literal) returns (r: seq<Literal>)
    requires StrictlyIncreasing(sorted)
    ensures StrictlyIncreasing(r)
    ensures forall l :: l in r <==> l in sorted || l == x
  {
    var j := 0;
    while j < |sorted| && LiteralLess(sorted[j], x)
      invariant 0 <= j <= |sorted|
      invariant forall k | 0 <= k < j :: LiteralLess(sorted[k], x)
    {
      j := j + 1;
    }
    if j < |sorted| && sorted[j] == x {
      r := sorted;
    } else {
      if j < |sorted| {
        LiteralOrder(x, sorted[j], x);
      }
      InsertKeepsOrder(sorted, j, x);
      r := sorted[..j] + [x] + sorted[j..];
      assert sorted == sorted[..j] + sorted[j..];
    }
  }

  /** The sorter loop: the literals of a disjunction of literals, deduplicated, in ascending order. */
  method SortedLiterals(args: seq<Expression>) returns (lits: seq<Literal>)
    requires forall i | 0 <= i < |args| :: args[i].Lit?
    ensures StrictlyIncreasing(lits)
    ensures LiteralSet(Clause(lits)) == ClauseLiterals(Disjunction(args))
  {
    lits := [];
    var i := 0;
    while i < |args|
      invariant 0 <= i <= |args|
      invariant StrictlyIncreasing(lits)
      invariant forall l :: l in lits <==> exists j | 0 <= j < i :: args[j].literal == l
    {
      lits := InsertLiteral(lits, args[i].literal);
      i := i + 1;
    }
    assert ClauseShaped(Disjunction(args));
    forall l ensures l in LiteralSet(Clause(lits)) <==> l in ClauseLiterals(Disjunction(args)) {
      if l in lits {
        var k :| 0 <= k < |lits| && lits[k] == l;
        assert l in LiteralSet(Clause(lits));
      }
    }
  }

  /** How `to_cnf` ended: with clauses, in a panic, or still rewriting when the fuel ran out. */
  datatype CnfOutcome = Clauses(clauses: seq<Clause>) | Panicked | OutOfFuel

  /**
   * `Expression::to_cnf`, running at most `fuel` further rewriting passes
   * after the first. The clauses are satisfied by exactly the assignments that
   * satisfy the expression, and each lists its literals strictly ascending.
   * An expression already in CNF gives one clause per conjunct, in order (a
   * lone clause or literal gives one clause); one without empty nodes never
   * panics.
   */
  method ToCnf(e: Expression, fuel: nat) returns (outcome: CnfOutcome)
    ensures outcome.Clauses? ==> forall a :: ClausesHold(outcome.clauses, a) == Eval(e, a)
    ensures outcome.Clauses? ==> forall i | 0 <= i < |outcome.clauses| :: StrictlyIncreasing(outcome.clauses[i].literals)
    ensures outcome.Clauses? ==> forall i, k | 0 <= i < |outcome.clauses| && 0 <= k < |outcome.clauses[i].literals| ::
      outcome.clauses[i].literals[k] in Lits(e)
    ensures NonEmpty(e) ==> !outcome.Panicked?
    ensures CnfShaped(e) ==> outcome.Clauses? && |outcome.clauses| == |e.args|
    ensures CnfShaped(e) ==> forall i | 0 <= i < |e.args| :: LiteralSet(outcome.clauses[i]) == ClauseLiterals(e.args[i])
    ensures ClauseShaped(e) ==> outcome.Clauses? && |outcome.clauses| == 1 && LiteralSet(outcome.clauses[0]) == ClauseLiterals(e)
  {
    var expr, status, ok := RewriteVisitor(e);
    var passes := 0;
    while ok && status == Other && passes < fuel
      invariant ok ==> Equivalent(expr, e)
      invariant ok ==> Lits(expr) <= Lits(e)
      invariant ok && status == Cnf ==> CnfShaped(expr)
      invariant ok && status == CnfClause ==> LiteralDisjunction(expr)
      invariant ok && status == LiteralForm ==> expr.Lit?
      invariant NonEmpty(e) ==> ok && NonEmpty(expr)
      invariant (CnfShaped(e) || ClauseShaped(e)) ==> ok && expr == e && status != Other
      invariant ClauseShaped(e) ==> (if e.Lit? then status == LiteralForm else status == CnfClause)
      decreases fuel - passes
    {
      expr, status, ok := RewriteVisitor(expr);
      passes := passes + 1;
    }
    if !ok {
      return Panicked;
    }
    if status == Other {
      return OutOfFuel;
    }
    var conjuncts := if status == Cnf then expr.args else [expr];
    assert forall j | 0 <= j < |conjuncts| :: ClauseShaped(conjuncts[j]);
    assert forall j | 0 <= j < |conjuncts| :: Lits(conjuncts[j]) <= Lits(e);
    var clauses := ExtractClauses(conjuncts);
    forall a ensures ClausesHold(clauses, a) == Eval(e, a) {
      assert Eval(expr, a) == Eval(e, a);
      if status == Cnf {
        assert Eval(expr, a) == forall j | 0 <= j < |conjuncts| :: Eval(conjuncts[j], a);
      } else {
        assert conjuncts[0] == expr;
      }
    }
    outcome := Clauses(clauses);
  }

  /** The extraction loop of `to_cnf`: one clause per conjunct, its literals sorted and deduplicated. */
  method ExtractClauses(conjuncts: seq<Expression>) returns (clauses: seq<Clause>)
    requires forall j | 0 <= j < |conjuncts| :: ClauseShaped(conjuncts[j])
    ensures |clauses| == |conjuncts|
    ensures forall j | 0 <= j < |clauses| ::
      StrictlyIncreasing(clauses[j].literals) && LiteralSet(clauses[j]) == ClauseLiterals(conjuncts[j])
    ensures forall j | 0 <= j < |clauses| :: forall a :: ClauseHolds(clauses[j], a) == Eval(conjuncts[j], a)
    ensures forall j, k | 0 <= j < |clauses| && 0 <= k < |clauses[j].literals| ::
      clauses[j].literals[k] in Lits(conjuncts[j])
  {
    clauses := [];
    var i := 0;
    while i < |conjuncts|
      invariant 0 <= i <= |conjuncts| && |clauses| == i
      invariant forall j | 0 <= j < i ::
        StrictlyIncreasing(clauses[j].literals) && LiteralSet(clauses[j]) == ClauseLiterals(conjuncts[j])
    {
      match conjuncts[i] {
        case Conjunction(_) =>
          assert false;
        case Disjunction(args) =>
          var lits := SortedLiterals(args);
          clauses := clauses + [Clause(lits)];
        case Lit(l) =>
          assert [l][0] == l;
          assert LiteralSet(Clause([l])) == {l};
          clauses := clauses + [Clause([l])];
      }
      i := i + 1;
    }
    forall j | 0 <= j < |clauses| ensures forall a :: ClauseHolds(clauses[j], a) == Eval(conjuncts[j], a) {
      ClauseMeaning(clauses[j], conjuncts[j]);
    }
    forall j, k | 0 <= j < |clauses| && 0 <= k < |clauses[j].literals| ensures clauses[j].literals[k] in Lits(conjuncts[j]) {
      var l := clauses[j].literals[k];
      assert l in LiteralSet(clauses[j]);
      assert l in ClauseLiterals(conjuncts[j]);
      if conjuncts[j].Disjunction? {
        var m :| 0 <= m < |conjuncts[j].args| && conjuncts[j].args[m].literal == l;
        assert l in Lits(conjuncts[j].args[m]);
      }
    }
  }
}
