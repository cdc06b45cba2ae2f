/**
 * The MonoSAT "GNF" problem the transactions checker builds: a CNF formula
 * over numbered variables, grouped into commented blocks of clauses, plus a
 * directed graph whose edges are switched on by variables, and the variable
 * that asserts the enabled edges form an acyclic graph. `ToDimacs` renders it
 * in MonoSAT's extended DIMACS text.
 */
module MonosatGnf {
  import opened Prelude
  import opened Cnf

  datatype Node = Node(index: nat)

  /** An edge of the graph, present exactly when its variable is true. */
  datatype Edge = Edge(from: Node, to: Node, variable: Variable)

  /** A block of clauses under one comment. */
  datatype ClausesWithComment = ClausesWithComment(comment: string, clauses: seq<Clause>)

  datatype GnfState = GnfState(
    nVariables: nat,
    metaClauses: seq<ClausesWithComment>,
    nNodes: nat,
    edges: seq<(Edge, string)>,
    acyclicVariable: Variable)

  /** `Gnf::new`: variable 1 is reserved for the acyclicity constraint. */
  const EMPTY := GnfState(1, [], 0, [], Variable(1))

  /** A builder's state is well formed: every variable it mentions has been handed out. */
  predicate WellFormed(g: GnfState)
  {
    && 1 <= g.acyclicVariable.index <= g.nVariables
    && (forall i, j | 0 <= i < |g.metaClauses| && 0 <= j < |g.metaClauses[i].clauses| ::
          ClauseInRange(g.metaClauses[i].clauses[j], g.nVariables))
    && (forall i | 0 <= i < |g.edges| ::
          && 1 <= g.edges[i].0.variable.index <= g.nVariables
          && g.edges[i].0.from.index < g.nNodes && g.edges[i].0.to.index < g.nNodes)
  }

  predicate ClauseInRange(c: Clause, nVariables: nat)
  {
    forall k | 0 <= k < |c.literals| :: 1 <= c.literals[k].variable.index <= nVariables
  }

  /** The number of clauses over all blocks, as the header announces it. */
  function ClauseCount(ms: seq<ClausesWithComment>): nat
  {
    if ms == [] then 0 else ClauseCount(ms[..|ms| - 1]) + |ms[|ms| - 1].clauses|
  }

  /** All clauses of all blocks, in order. */
  function AllClauses(ms: seq<ClausesWithComment>): seq<Clause>
  {
    if ms == [] then [] else AllClauses(ms[..|ms| - 1]) + ms[|ms| - 1].clauses
  }

  /** The header counts exactly the clauses the formula holds. */
  lemma {:induction false} ClauseCountCounts(ms: seq<ClausesWithComment>)
    ensures ClauseCount(ms) == |AllClauses(ms)|
    decreases |ms|
  {
    if ms != [] {
      ClauseCountCounts(ms[..|ms| - 1]);
    }
  }

  // ---------------------------------------------------------------------------
  // The extended DIMACS text
  // ---------------------------------------------------------------------------

  /** A literal followed by its separating space; a negation carries a minus sign. */
  function LiteralToken(l: Literal): string
  {
    match l
    case Positive(v) => Decimal(v.index) + " "
    case Negation(v) => "-" + Decimal(v.index) + " "
  }

  function LiteralsText(ls: seq<Literal>): string
  {
    if ls == [] then "" else LiteralsText(ls[..|ls| - 1]) + LiteralToken(ls[|ls| - 1])
  }

  /** A clause line without its newline: its literals, then the terminating `0`. */
  function ClauseLine(c: Clause): string
  {
    LiteralsText(c.literals) + "0"
  }

  function ClauseText(c: Clause): string
  {
    ClauseLine(c) + "\n"
  }

  function ClausesText(cs: seq<Clause>): string
  {
    if cs == [] then "" else ClausesText(cs[..|cs| - 1]) + ClauseText(cs[|cs| - 1])
  }

  function CommentLine(comment: string): string
  {
    "c " + comment + "\n"
  }

  function BlockText(m: ClausesWithComment): string
  {
    CommentLine(m.comment) + ClausesText(m.clauses)
  }

  function BlocksText(ms: seq<ClausesWithComment>): string
  {
    if ms == [] then "" else BlocksText(ms[..|ms| - 1]) + BlockText(ms[|ms| - 1])
  }

  function HeaderLine(nVariables: nat, nClauses: nat): string
  {
    "p cnf " + (Decimal(nVariables) + (" " + (Decimal(nClauses) + "\n")))
  }

  function GraphLine(nNodes: nat, nEdges: nat): string
  {
    "digraph " + Decimal(nNodes) + " " + Decimal(nEdges) + " 0\n"
  }

  function EdgeText(e: (Edge, string)): string
  {
    CommentLine(e.1) + "edge 0 " + Decimal(e.0.from.index) + " " + Decimal(e.0.to.index) + " "
      + Decimal(e.0.variable.index) + "\n"
  }

  function EdgesText(es: seq<(Edge, string)>): string
  {
    if es == [] then "" else EdgesText(es[..|es| - 1]) + EdgeText(es[|es| - 1])
  }

  function AcyclicLine(v: Variable): string
  {
    "acyclic 0 " + Decimal(v.index) + "\n"
  }

  /** Everything after the header: the clause blocks, then the graph and its acyclicity constraint. */
  function DimacsBody(g: GnfState): string
  {
    BlocksText(g.metaClauses) + (GraphLine(g.nNodes, |g.edges|) + (EdgesText(g.edges) + AcyclicLine(g.acyclicVariable)))
  }

  /** `Gnf::to_dimacs`. */
  function Dimacs(g: GnfState): string
  {
    HeaderLine(g.nVariables, ClauseCount(g.metaClauses)) + DimacsBody(g)
  }

  // ---------------------------------------------------------------------------
  // Reading the text back, as MonoSAT does
  // ---------------------------------------------------------------------------

  /** The length of the run of decimal digits that starts `s`. */
  function DigitRun(s: string): (n: nat)
    ensures n <= |s|
    ensures forall i | 0 <= i < n :: IsDigitChar(s[i])
    ensures n < |s| ==> !IsDigitChar(s[n])
  {
    if s == [] || !IsDigitChar(s[0]) then 0 else 1 + DigitRun(s[1..])
  }

  /** A decimal number at the start of `s`, and what follows it. */
  function ParseNat(s: string): (r: Option<(nat, string)>)
    ensures r.Some? ==> |r.value.1| < |s|
  {
    var n := DigitRun(s);
    if n == 0 then None else Some((DigitCharsValue(s[..n]), s[n..]))
  }

  lemma {:induction false} DigitRunOfDigits(d: string, rest: string)
    requires forall i | 0 <= i < |d| :: IsDigitChar(d[i])
    requires rest == [] || !IsDigitChar(rest[0])
    ensures DigitRun(d + rest) == |d|
    decreases |d|
  {
    if d != [] {
      assert (d + rest)[1..] == d[1..] + rest;
      DigitRunOfDigits(d[1..], rest);
    } else {
      assert d + rest == rest;
    }
  }

  /** A number written in decimal reads back as itself, up to the first non-digit. */
  lemma ParseDecimal(n: nat, rest: string)
    requires rest == [] || !IsDigitChar(rest[0])
    ensures ParseNat(Decimal(n) + rest) == Some((n, rest))
  {
    var d := Decimal(n);
    DigitRunOfDigits(d, rest);
    assert (d + rest)[..|d|] == d;
    assert (d + rest)[|d|..] == rest;
  }

  /** The literals of a clause line, up to its terminating `0`. */
  function ParseClauseLine(s: string): Option<seq<Literal>>
    decreases |s|
  {
    if s == "0" then Some([])
    else
      var negative := |s| > 0 && s[0] == '-';
      var body := if negative then s[1..] else s;
      match ParseNat(body)
      case None => None
      case Some((v, rest)) =>
        if v == 0 || rest == [] || rest[0] != ' ' then None
        else
          var l := if negative then Negation(Variable(v)) else Positive(Variable(v));
          match ParseClauseLine(rest[1..])
          case None => None
          case Some(ls) => Some([l] + ls)
  }

  lemma {:induction false} LiteralsTextFront(ls: seq<Literal>)
    requires ls != []
    ensures LiteralsText(ls) == LiteralToken(ls[0]) + LiteralsText(ls[1..])
    decreases |ls|
  {
    if |ls| > 1 {
      var init := ls[..|ls| - 1];
      LiteralsTextFront(init);
      assert init[0] == ls[0];
      assert init[1..] == ls[1..][..|ls[1..]| - 1];
    } else {
      assert ls[..0] == [];
      assert ls[1..] == [];
    }
  }

  /** One literal token, then whatever follows, reads back as that literal in front. */
  lemma ParseToken(l: Literal, rest: string)
    requires l.variable.index >= 1
    ensures ParseClauseLine(LiteralToken(l) + rest)
      == match ParseClauseLine(rest) case None => None case Some(ls) => Some([l] + ls)
  {
    TokenText(l, rest);
    ParseSigned(l.Negation?, l.variable.index, rest);
  }

  /** The token of a literal numbered `n`, with or without its minus sign, reads back in front. */
  lemma ParseSigned(negative: bool, n: nat, rest: string)
    requires n >= 1
    ensures ParseClauseLine((if negative then "-" else "") + (Decimal(n) + (" " + rest))) ==
      var l := if negative then Negation(Variable(n)) else Positive(Variable(n));
      match ParseClauseLine(rest) case None => None case Some(ls) => Some([l] + ls)
  {
    var body := Decimal(n) + (" " + rest);
    assert ParseNat(body) == Some((n, " " + rest)) by {
      ParseDecimal(n, " " + rest);
    }
    if negative {
      ParseClauseStep("-" + body, true, body, n, rest);
    } else {
      assert "" + body == body;
      assert body[0] != '-' by {
        assert body[0] == Decimal(n)[0];
      }
      ParseClauseStep(body, false, body, n, rest);
    }
  }

  /** A token followed by more text: an optional minus sign, the number, a space, the rest. */
  lemma TokenText(l: Literal, rest: string)
    ensures LiteralToken(l) + rest
      == (if l.Negation? then "-" else "") + (Decimal(l.variable.index) + (" " + rest))
  {
  }

  /** One unfolding of the clause-line parser, once the token's number has been read. */
  lemma ParseClauseStep(s: string, negative: bool, body: string, n: nat, rest: string)
    requires s != "0" && negative == (|s| > 0 && s[0] == '-')
    requires body == (if negative then s[1..] else s)
    requires n >= 1 && ParseNat(body) == Some((n, " " + rest))
    ensures ParseClauseLine(s) ==
      var l := if negative then Negation(Variable(n)) else Positive(Variable(n));
      match ParseClauseLine(rest) case None => None case Some(ls) => Some([l] + ls)
  {
    assert (" " + rest)[1..] == rest;
  }

  /** A clause whose variables are all numbered from 1 reads back as itself. */
  lemma {:induction false} ClauseLineRoundTrip(ls: seq<Literal>)
    requires forall k | 0 <= k < |ls| :: ls[k].variable.index >= 1
    ensures ParseClauseLine(LiteralsText(ls) + "0") == Some(ls)
    decreases |ls|
  {
    if ls == [] {
      assert LiteralsText(ls) + "0" == "0";
    } else {
      var l, tail := ls[0], ls[1..];
      var rest := LiteralsText(tail) + "0";
      assert LiteralsText(ls) + "0" == LiteralToken(l) + rest by {
        LiteralsTextFront(ls);
        AppendAssoc(LiteralToken(l), LiteralsText(tail), "0");
      }
      assert ParseClauseLine(rest) == Some(tail) by {
        ClauseLineRoundTrip(tail);
      }
      assert ParseClauseLine(LiteralToken(l) + rest) == Some([l] + tail) by {
        ParseToken(l, rest);
      }
      assert [l] + tail == ls;
    }
  }

  /** The header line of a formula states its variable count and clause count. */
  function ParseHeader(s: string): Option<(nat, nat)>
  {
    var prefix := "p cnf ";
    if |s| < |prefix| || s[..|prefix|] != prefix then None
    else
      match ParseNat(s[|prefix|..])
      case None => None
      case Some((v, rest)) =>
        if rest == [] || rest[0] != ' ' then None
        else
          match ParseNat(rest[1..])
          case None => None
          case Some((c, tail)) => if tail == [] || tail[0] != '\n' then None else Some((v, c))
  }

  lemma ParseHeaderLine(nVariables: nat, nClauses: nat, rest: string)
    ensures ParseHeader(HeaderLine(nVariables, nClauses) + rest) == Some((nVariables, nClauses))
  {
    var prefix := "p cnf ";
    var z := Decimal(nClauses) + "\n";
    var y := " " + z;
    var x := Decimal(nVariables) + y;
    assert HeaderLine(nVariables, nClauses) == prefix + x;
    var s := HeaderLine(nVariables, nClauses) + rest;
    AppendAssoc(prefix, x, rest);
    assert s[..|prefix|] == prefix;
    assert s[|prefix|..] == x + rest;
    AppendAssoc(Decimal(nVariables), y, rest);
    AppendAssoc(" ", z, rest);
    ParseDecimal(nVariables, y + rest);
    assert (y + rest)[1..] == z + rest;
    AppendAssoc(Decimal(nClauses), "\n", rest);
    ParseDecimal(nClauses, "\n" + rest);
  }

  /** MonoSAT reads from the header exactly the variables handed out and the clauses added. */
  lemma DimacsHeader(g: GnfState)
    ensures ParseHeader(Dimacs(g)) == Some((g.nVariables, |AllClauses(g.metaClauses)|))
  {
    ClauseCountCounts(g.metaClauses);
    ParseHeaderLine(g.nVariables, ClauseCount(g.metaClauses), DimacsBody(g));
  }

  // ---------------------------------------------------------------------------
  // The builder
  // ---------------------------------------------------------------------------

  /** `Gnf`: the formula and graph under construction. */
  class Gnf {
    var nVariables: nat
    var metaClauses: seq<ClausesWithComment>
    var nNodes: nat
    var edges: seq<(Edge, string)>
    var acyclicVariable: Variable

    function State(): GnfState
      reads this
    {
      GnfState(nVariables, metaClauses, nNodes, edges, acyclicVariable)
    }

    constructor ()
      ensures State() == EMPTY && WellFormed(State())
    {
      nVariables := 1;
      metaClauses := [];
      nNodes := 0;
      edges := [];
      acyclicVariable := Variable(1);
    }

    /** `add_variable`: a variable numbered above every variable handed out so far. */
    method AddVariable() returns (v: Variable)
      modifies this
      ensures v.index == old(nVariables) + 1
      ensures State() == old(State()).(nVariables := v.index)
      ensures WellFormed(old(State())) ==> v.index >= 2 && WellFormed(State())
    {
      var variableNumber := nVariables + 1;
      nVariables := variableNumber;
      v := Variable(variableNumber);
    }

    /** `add_node`: the next node number. */
    method AddNode() returns (n: Node)
      modifies this
      ensures n.index == old(nNodes)
      ensures State() == old(State()).(nNodes := n.index + 1)
      ensures WellFormed(old(State())) ==> WellFormed(State())
    {
      var nodeNumber := nNodes;
      nNodes := nodeNumber + 1;
      n := Node(nodeNumber);
    }

    method AddEdge(from: Node, to: Node, variable: Variable, comment: string)
      modifies this
      ensures State() == old(State()).(edges := old(edges) + [(Edge(from, to, variable), comment)])
      ensures (WellFormed(old(State())) && from.index < nNodes && to.index < nNodes
        && 1 <= variable.index <= nVariables) ==> WellFormed(State())
    {
      edges := edges + [(Edge(from, to, variable), comment)];
    }

    method AddClause(clause: Clause, comment: string)
      modifies this
      ensures State() == old(State()).(metaClauses := old(metaClauses) + [ClausesWithComment(comment, [clause])])
      ensures WellFormed(old(State())) && ClauseInRange(clause, nVariables) ==> WellFormed(State())
    {
      metaClauses := metaClauses + [ClausesWithComment(comment, [clause])];
    }

    method AddClauses(clauses: seq<Clause>, comment: string)
      modifies this
      ensures State() == old(State()).(metaClauses := old(metaClauses) + [ClausesWithComment(comment, clauses)])
      ensures (WellFormed(old(State())) && forall j | 0 <= j < |clauses| :: ClauseInRange(clauses[j], nVariables))
        ==> WellFormed(State())
    {
      metaClauses := metaClauses + [ClausesWithComment(comment, clauses)];
    }

    /** `to_dimacs`. */
    method ToDimacs() returns (dimacs: string)
      ensures dimacs == Dimacs(State())
    {
      var clauseCount := ClauseCount(metaClauses);
      dimacs := HeaderLine(nVariables, clauseCount);
      ghost var header := dimacs;
      var i := 0;
      while i < |metaClauses|
        invariant 0 <= i <= |metaClauses|
        invariant dimacs == header + BlocksText(metaClauses[..i])
      {
        dimacs := WriteBlock(dimacs, metaClauses[i]);
        assert metaClauses[..i + 1][..i] == metaClauses[..i];
        AppendAssoc(header, BlocksText(metaClauses[..i]), BlockText(metaClauses[i]));
        i := i + 1;
      }
      assert metaClauses[..i] == metaClauses;
      ghost var blocks := dimacs;
      var graph := GraphLine(nNodes, |edges|);
      dimacs := dimacs + graph;
      dimacs := WriteEdges(dimacs, edges);
      var acyclic := AcyclicLine(acyclicVariable);
      dimacs := dimacs + acyclic;
      AppendAssoc(blocks + graph, EdgesText(edges), acyclic);
      AppendAssoc(blocks, graph, EdgesText(edges) + acyclic);
      AppendAssoc(header, BlocksText(metaClauses), graph + (EdgesText(edges) + acyclic));
    }
  }

  lemma AppendAssoc(a: string, b: string, c: string)
    ensures a + b + c == a + (b + c)
  {
  }

  lemma ClausesTextSnoc(cs: seq<Clause>, j: nat)
    requires j < |cs|
    ensures ClausesText(cs[..j + 1]) == ClausesText(cs[..j]) + ClauseText(cs[j])
  {
    assert cs[..j + 1][..j] == cs[..j];
  }

  /** Appends a commented block: its comment line, then one line per clause. */
  method WriteBlock(dimacs: string, m: ClausesWithComment) returns (out: string)
    ensures out == dimacs + BlockText(m)
  {
    var line := CommentLine(m.comment);
    out := dimacs + line;
    ghost var start := out;
    var j := 0;
    while j < |m.clauses|
      invariant 0 <= j <= |m.clauses|
      invariant out == start + ClausesText(m.clauses[..j])
    {
      var c := m.clauses[j];
      out := WriteClause(out, c);
      ClausesTextSnoc(m.clauses, j);
      AppendAssoc(start, ClausesText(m.clauses[..j]), ClauseText(c));
      j := j + 1;
    }
    assert m.clauses[..j] == m.clauses;
    AppendAssoc(dimacs, line, ClausesText(m.clauses));
  }

  /** Appends one clause line: each literal as `v ` or `-v `, then `0`. */
  method WriteClause(dimacs: string, c: Clause) returns (out: string)
    ensures out == dimacs + ClauseText(c)
  {
    out := dimacs;
    var k := 0;
    while k < |c.literals|
      invariant 0 <= k <= |c.literals|
      invariant out == dimacs + LiteralsText(c.literals[..k])
    {
      var token := LiteralToken(c.literals[k]);
      out := out + token;
      assert c.literals[..k + 1][..k] == c.literals[..k];
      AppendAssoc(dimacs, LiteralsText(c.literals[..k]), token);
      k := k + 1;
    }
    assert c.literals[..k] == c.literals;
    out := out + "0\n";
    AppendAssoc(dimacs, LiteralsText(c.literals), "0");
    AppendAssoc(dimacs, ClauseLine(c), "\n");
    AppendAssoc(dimacs + LiteralsText(c.literals), "0", "\n");
  }

  /** Appends each edge as a comment line and an `edge` line. */
  method WriteEdges(dimacs: string, es: seq<(Edge, string)>) returns (out: string)
    ensures out == dimacs + EdgesText(es)
  {
    out := dimacs;
    var e := 0;
    while e < |es|
      invariant 0 <= e <= |es|
      invariant out == dimacs + EdgesText(es[..e])
    {
      var text := EdgeText(es[e]);
      out := out + text;
      assert es[..e + 1][..e] == es[..e];
      AppendAssoc(dimacs, EdgesText(es[..e]), text);
      e := e + 1;
    }
    assert es[..e] == es;
  }

  /** In a well-formed formula every clause reads back from its DIMACS line. */
  lemma WellFormedClausesRoundTrip(g: GnfState, i: nat, j: nat)
    requires WellFormed(g) && i < |g.metaClauses| && j < |g.metaClauses[i].clauses|
    ensures ParseClauseLine(ClauseLine(g.metaClauses[i].clauses[j])) == Some(g.metaClauses[i].clauses[j].literals)
  {
    var c := g.metaClauses[i].clauses[j];
    assert ClauseInRange(c, g.nVariables);
    ClauseLineRoundTrip(c.literals);
  }
}
