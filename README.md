# sled crash-consistency workloads and oracles, modelled in Dafny

The repository drives the sled embedded database through crash tests. Each
case is a workload that writes to a database and is repeatedly killed with
SIGKILL, and a checker (or a `verify` function run on recovery) that reads the
recovered database and decides whether what it sees is a state the workload
could have left behind. This project models the cases' encoders, reference
models and acceptance predicates, and proves what they accept and reject:

- `common_utils`: the big-endian `u32` codec, the argument helper and the
  fork/wait crash-recovery loop (`common_utils.dfy`);
- `random_ops`: the textual operation codec and its line reader
  (`random_ops_codec.dfy`), the reference model of versions per key with its
  prune step (`random_ops_reference.dfy`), and the comparison of a recovered
  tree against that reference (`random_ops_verify.dfy`);
- `transactions`: the operation records (`transactions.dfy`), the workload's
  key-space and transaction generation (`transactions_workload.dfy`), and the
  checker: per-key access collection (`transactions_checker.dfy`), the
  expression-to-CNF rewriter (`cnf.dfy`), the MonoSAT graph-and-CNF builder
  and its DIMACS text (`gnf.dfy`), `check_history` (`check_history.dfy`) and
  the status tracking, ex-nihilo check and final point read of `main`
  (`transactions_main.dfy`);
- `insert_loop`: the library's `verify` (`insert_loop.dfy`), the checker's
  loops (`insert_loop_checker.dfy`) and the workload's insert loop
  (`insert_loop_workload.dfy`);
- `batches`: `verify`, `do_batch` and `run` (`batches.dfy`);
- `basic`: `shift_bytes_by`, the workload's inserts and the checker gated on
  the "Flushed" line (`basic.dfy`).

`prelude.dfy` holds shared definitions: bytes, fixed-width integer ranges,
decimal text, `usize` parsing and the lexicographic order sled uses for keys.

A sled tree is modelled as a map from key to value, or as its values in
ascending key order when the code only iterates it. Randomness (`rand`) is a
parameter: the sequence of draws the run made. The MonoSAT solver is an
uninterpreted parameter `monosat: string -> bool` applied to the DIMACS text.
Fixed-width integers are Dafny integers with their ranges and wrap-around
written out; arithmetic that wraps follows Rust's release-build semantics.

In `random_ops`, a reference key with an empty version list is read two ways,
because `all` over an empty list is true. While the recovered tree is walked
(cases/random_ops/src/lib.rs:485-492) the "all absent" test comes first, so
such a key is skipped. The final loop over the reference entries left after
the last tree key (cases/random_ops/src/lib.rs:537-549) tests only "all
present", so the same key fails there. The model keeps both readings.

## Model

| member | source | states |
|---|---|---|
| Prelude.Decimal | cases/transactions/src/bin/transactions_checker.rs:475-517 | the decimal text `format!` writes for a number: digits only, no leading zero, reading back as the number |
| Prelude.DecimalBytes | cases/random_ops/src/lib.rs:59-83 | the same decimal text as ASCII bytes: digits only, no leading zero, reading back as the number |
| Prelude.ParseUsize | cases/insert_loop/src/bin/insert_loop_workload.rs:9-21 | `str::parse::<usize>`: every accepted text denotes a value below 2^64 |
| Prelude.ParseUsizeDecimal | cases/insert_loop/src/bin/insert_loop_workload.rs:9-21 | the decimal text of any `usize` parses back to it; a text holding a non-digit other than a leading `+` is rejected |
| Prelude.SortedElements | cases/transactions/src/bin/transactions_workload.rs:41 | collecting a `BTreeSet` into a vector gives its elements in strictly ascending key order, each once, and no other |
| Prelude.LexMinExists | cases/batches/src/lib.rs:6-12 | a non-empty key set has a least key in sled's byte order, so the tree's first entry exists |
| CommonUtils.U32ToVec | common_utils/src/lib.rs:111-114 | four bytes whose big-endian value is the input |
| CommonUtils.SliceToU32 | common_utils/src/lib.rs:116-121 | defined exactly on slices of at least four bytes (the source panics on shorter ones), and then the first four bytes encode the result |
| CommonUtils.DecodeEncodeU32 | common_utils/src/lib.rs:111-121 | decoding an encoded `u32`, whatever follows it, gives the `u32` back |
| CommonUtils.SliceToU32Prefix | common_utils/src/lib.rs:116-121 | bytes after the fourth do not change the decoded value |
| CommonUtils.U32ToVecInjective | common_utils/src/lib.rs:111-114 | distinct `u32`s have distinct encodings |
| CommonUtils.ChildDecision | common_utils/src/lib.rs:81-97 | the parent exits 0 exactly when the child exited with status 0, forks again exactly when the child did not exit and was killed by signal 9, and otherwise exits 1 |
| CommonUtils.RecoverySucceedsIff | common_utils/src/lib.rs:58-99 | in crash mode the loop exits 0 exactly when some round reaps a child that exited 0 and every earlier round ended in SIGKILL |
| CommonUtils.RecoveryExitCode | common_utils/src/lib.rs:58-99 | the crash-mode exit code is 0 or 1 |
| CommonUtils.CrashRecoveryLoop | common_utils/src/lib.rs:45-100 | without `--crash`, one run and exit 0 or 1 by its result, forking nothing; with it, the exit code of the first deciding round, having used exactly the rounds up to it |
| CommonUtils.PrefixDecides | common_utils/src/lib.rs:58-99 | rounds after the first deciding one do not change the outcome |
| CommonUtils.CheckerArguments | common_utils/src/lib.rs:28-33 | present exactly when at least two arguments follow the program name, and then the first two of them |
| Transactions.Key | cases/transactions/src/lib.rs:31-38 | every operation's key is the key it was built with |
| Transactions.KeyIgnoresValue | cases/transactions/src/lib.rs:31-38 | an insert's key does not depend on its value, and agrees with a get or remove on the same key |
| TransactionsChecker.PositionsSound | cases/transactions/src/bin/transactions_checker.rs:569-578 | every (transaction, operation) position recorded for a key is an operation on that key |
| TransactionsChecker.PositionsComplete | cases/transactions/src/bin/transactions_checker.rs:569-578 | every operation on a key in the history is recorded for that key |
| TransactionsChecker.OpPositionsSound | cases/transactions/src/bin/transactions_checker.rs:569-578 | within one transaction, the recorded positions for a key are operations on that key |
| TransactionsChecker.OpPositionsComplete | cases/transactions/src/bin/transactions_checker.rs:569-578 | within one transaction, every operation on the key is recorded |
| TransactionsChecker.BuildKeyMap | cases/transactions/src/bin/transactions_checker.rs:569-578 | the key map built by the nested loops maps each key of the history to exactly its positions, in history order, and no entry is empty |
| TransactionsChecker.HistoryKeysArePositions | cases/transactions/src/bin/transactions_checker.rs:569-578 | a key is in the map exactly when some operation touches it |
| TransactionsChecker.CollectAccesses | cases/transactions/src/bin/transactions_checker.rs:579-607 | the loop over a key's positions lists, in order, the gets of completed transactions as reads with their results and every insert or remove as a write, skipping gets of transactions that never ran or crashed; it fails exactly where `get_results[op_idx]` would panic |
| TransactionsChecker.SplitNoneExtends | cases/transactions/src/bin/transactions_checker.rs:579-607 | once a split fails on a prefix it fails on the whole list |
| Cnf.LiteralOrder | cases/transactions/src/bin/transactions_checker.rs:86-90 | the derived order on literals is irreflexive, transitive and total |
| Cnf.FlattenConjunction | cases/transactions/src/bin/transactions_checker.rs:193-210 | lifting nested conjunctions keeps the conjunction's meaning under every assignment and uses only its literals; it never fails when every argument is non-empty, and keeps them non-empty |
| Cnf.FlattenDisjunction | cases/transactions/src/bin/transactions_checker.rs:228-259 | the same for nested disjunctions, and reports a conjunction argument to distribute over when there is one |
| Cnf.Distribute | cases/transactions/src/bin/transactions_checker.rs:263-280 | distributing a disjunction over its first conjunction argument gives an equivalent conjunction over the same literals |
| Cnf.DistributeEquivalent | cases/transactions/src/bin/transactions_checker.rs:263-280 | the distributed form holds under an assignment exactly when the disjunction does |
| Cnf.RewriteVisitor | cases/transactions/src/bin/transactions_checker.rs:176-286 | one visit keeps meaning and literals; a `Cnf` status means the node is CNF-shaped, `CnfClause` a disjunction of literals, `LiteralForm` a literal; a non-empty tree never reaches the panic; a CNF-shaped tree is left unchanged |
| Cnf.RewriteDisjunction | cases/transactions/src/bin/transactions_checker.rs:214-283 | the disjunction arm keeps meaning and literals, and marks a disjunction of literals as `CnfClause` |
| Cnf.VisitArgs | cases/transactions/src/bin/transactions_checker.rs:178-192 | visiting each argument keeps each one's meaning and literals, and collects the statuses the arm inspects |
| Cnf.ClauseMeaning | cases/transactions/src/bin/transactions_checker.rs:295-323 | an extracted clause holds exactly when the clause-shaped expression it came from holds |
| Cnf.InsertLiteral | cases/transactions/src/bin/transactions_checker.rs:300-317 | inserting into a sorted, duplicate-free literal list keeps it strictly increasing, with the old elements plus the new one |
| Cnf.SortedLiterals | cases/transactions/src/bin/transactions_checker.rs:300-317 | the sorter emits the clause's literals strictly increasing, each once, and exactly those |
| Cnf.ExtractClauses | cases/transactions/src/bin/transactions_checker.rs:295-323 | from a CNF-shaped expression, one sorted clause per conjunct, in order, holding exactly when the conjunct does |
| Cnf.ToCnf | cases/transactions/src/bin/transactions_checker.rs:119-324 | the clauses hold exactly when the expression does; each clause is strictly increasing; every literal occurs in the expression; a non-empty tree never panics; an input already in CNF gives one clause per conjunct and a single clause gives one clause |
| MonosatGnf.Gnf.constructor | cases/transactions/src/bin/transactions_checker.rs:431-439 | a new problem has one variable, no nodes, no edges and no clauses |
| MonosatGnf.Gnf.AddVariable | cases/transactions/src/bin/transactions_checker.rs:441-445 | returns the next variable number, above the acyclicity variable, and counts it |
| MonosatGnf.Gnf.AddNode | cases/transactions/src/bin/transactions_checker.rs:447-451 | returns the next node number and counts it |
| MonosatGnf.Gnf.AddEdge | cases/transactions/src/bin/transactions_checker.rs:453-455 | appends the edge with its variable, and nothing else changes |
| MonosatGnf.Gnf.AddClause | cases/transactions/src/bin/transactions_checker.rs:457-462 | appends a block of one clause under its comment |
| MonosatGnf.Gnf.AddClauses | cases/transactions/src/bin/transactions_checker.rs:464-469 | appends a block of the given clauses under its comment |
| MonosatGnf.Gnf.ToDimacs | cases/transactions/src/bin/transactions_checker.rs:475-517 | the text written is the DIMACS rendering of the problem state |
| MonosatGnf.ClauseCountCounts | cases/transactions/src/bin/transactions_checker.rs:475-517 | the header's clause count is the number of clauses over all blocks |
| MonosatGnf.DimacsHeader | cases/transactions/src/bin/transactions_checker.rs:475-517 | the header line reads back as the variable and clause counts |
| MonosatGnf.ClauseLineRoundTrip | cases/transactions/src/bin/transactions_checker.rs:475-517 | each clause line reads back as its literals, positive and negated |
| MonosatGnf.WellFormedClausesRoundTrip | cases/transactions/src/bin/transactions_checker.rs:475-517 | every clause of a well-formed problem reads back from its line |
| MonosatGnf.ParseDecimal | cases/transactions/src/bin/transactions_checker.rs:475-517 | a number's decimal text, followed by a non-digit, reads back as the number |
| MonosatGnf.WriteBlock | cases/transactions/src/bin/transactions_checker.rs:475-517 | the loop over one block writes its comment and clause lines |
| MonosatGnf.WriteClause | cases/transactions/src/bin/transactions_checker.rs:475-517 | the loop over one clause writes its literal tokens and the closing 0 |
| MonosatGnf.WriteEdges | cases/transactions/src/bin/transactions_checker.rs:475-517 | the graph part: one comment line and one `edge 0 from to variable` line per edge, in insertion order |
| CheckHistory.Matching | cases/transactions/src/bin/transactions_checker.rs:697-712 | the writes whose value equals the read's, in order |
| CheckHistory.MatchingExact | cases/transactions/src/bin/transactions_checker.rs:697-712 | a write is matching exactly when it writes the value the read saw |
| CheckHistory.UnexplainedIffNoMatch | cases/transactions/src/bin/transactions_checker.rs:713-717 | a read is rejected as unexplained exactly when no write matches it |
| CheckHistory.OrderingMeaning | cases/transactions/src/bin/transactions_checker.rs:788-857 | the ordering formula for a read holds exactly when one of its candidate writes is ordered before it with every other write outside the interval |
| CheckHistory.CandidateMeaning | cases/transactions/src/bin/transactions_checker.rs:788-846 | one candidate's conjunction holds exactly when its edge variable is set and the other writes' constraints hold |
| CheckHistory.OtherWritesMeaning | cases/transactions/src/bin/transactions_checker.rs:788-846 | the constraint on the other writes holds exactly when each is before the candidate or after the read |
| CheckHistory.OrderingBounds | cases/transactions/src/bin/transactions_checker.rs:788-857 | the formula uses only variables already allocated |
| CheckHistory.WithForcedEdgeForces | cases/transactions/src/bin/transactions_checker.rs:553-565 | a forced edge only adds to the problem, and forces the edge from its source to its target |
| CheckHistory.ForceEdge | cases/transactions/src/bin/transactions_checker.rs:553-565 | the problem becomes exactly the old one plus the next variable, a unit block forcing it and the edge it labels; that edge is forced and nothing is lost |
| CheckHistory.AddNodes | cases/transactions/src/bin/transactions_checker.rs:542 | one node per transaction, numbered in history order, and nothing else changes |
| CheckHistory.AddRealTimeEdges | cases/transactions/src/bin/transactions_checker.rs:545-566 | the problem becomes exactly the old one plus one forced edge per completed pair ordered in real time, visited in the double loop's order; every such pair is forced |
| CheckHistory.StartProblem | cases/transactions/src/bin/transactions_checker.rs:537-566 | the problem is exactly the acyclicity block, one node per transaction and the real-time edges, so the first block is the acyclicity unit clause and every real-time pair is forced |
| CheckHistory.SingleWriteRead | cases/transactions/src/bin/transactions_checker.rs:630-688 | one read of the single-write arm: fails exactly when the write does not explain the read, and then changes nothing; otherwise adds exactly the forced R-W edge (read saw nothing of an insert), the forced W-R edge (read saw the value) or nothing (a remove read as absent) |
| CheckHistory.SingleWriteStepEdges | cases/transactions/src/bin/transactions_checker.rs:645-688 | one read's step only adds to the problem and forces the edge the read needs |
| CheckHistory.SingleWriteUpToEdges | cases/transactions/src/bin/transactions_checker.rs:620-689 | the steps for the first reads only add to the problem and leave each of those reads with its forced edge |
| CheckHistory.SingleWrite | cases/transactions/src/bin/transactions_checker.rs:620-689 | succeeds exactly when every read is explained by the one write; then the problem is exactly the old one plus each read's step in order, and every read has its forced edge |
| CheckHistory.AddCandidateEdge | cases/transactions/src/bin/transactions_checker.rs:773-784 | the problem becomes exactly the old one plus the next variable and an unforced edge it labels |
| CheckHistory.WithEdgeHas | cases/transactions/src/bin/transactions_checker.rs:773-784 | an unforced edge only adds to the problem, uses one new variable and is labelled by it |
| CheckHistory.AntiUpToEdges | cases/transactions/src/bin/transactions_checker.rs:750-787 | the R-W edges only add to the problem; writer o's entry is absent exactly for the lone matching writer of a read that saw a value, and otherwise labels an edge from the reader to o |
| CheckHistory.AddAntiEdges | cases/transactions/src/bin/transactions_checker.rs:750-787 | the problem and the entries are exactly the R-W edges to the writers in order, one absent exactly for the lone matching writer of a read that saw a value |
| CheckHistory.RowUpToEdges | cases/transactions/src/bin/transactions_checker.rs:813-843 | the W-W edges of a candidate only add to the problem; the entry of writer o is absent exactly for the candidate's own transaction, and otherwise labels an edge from o to the candidate |
| CheckHistory.WithCandidateEdges | cases/transactions/src/bin/transactions_checker.rs:790-844 | a candidate's edges only add to the problem: its W-R edge to the reader and a W-W edge from every other writer |
| CheckHistory.AddOverwrites | cases/transactions/src/bin/transactions_checker.rs:809-843 | the problem is exactly the old one plus a W-W edge from every writer of another transaction, in order, and the conjunction is the W-R literal followed by each such writer's W-W-or-R-W disjunction |
| CheckHistory.AddCandidate | cases/transactions/src/bin/transactions_checker.rs:790-844 | the problem is exactly the old one plus the candidate's W-R edge and then its W-W edges, and the returned conjunction is the candidate's case of the ordering formula |
| CheckHistory.CandidatesUpToEdges | cases/transactions/src/bin/transactions_checker.rs:788-846 | the edges of the first candidates only add to the problem and are labelled by their variables |
| CheckHistory.AddCandidates | cases/transactions/src/bin/transactions_checker.rs:788-846 | the problem is exactly the old one plus every matching writer's edges, in order, and the returned list is their conjunctions |
| CheckHistory.ReadEdgesLabelled | cases/transactions/src/bin/transactions_checker.rs:750-846 | all of one read's edges only add to the problem and are labelled by the variables the formula uses |
| CheckHistory.BuildOrdering | cases/transactions/src/bin/transactions_checker.rs:750-857 | the problem is exactly the old one plus the read's R-W edges and then its candidates' edges, and the returned expression is the read's ordering formula over their variables |
| CheckHistory.AddOrdering | cases/transactions/src/bin/transactions_checker.rs:858-875 | never rejects; on success the problem is exactly the old one plus one block, with the read's ordering comment, whose clauses hold exactly when the formula does, and that block constrains the read |
| CheckHistory.ConstrainRead | cases/transactions/src/bin/transactions_checker.rs:750-875 | never rejects; on success the problem is exactly the read's encoding (its edges, then one block equivalent to its formula) on the old problem, and that block constrains the read |
| CheckHistory.OrderRead | cases/transactions/src/bin/transactions_checker.rs:697-875 | rejects exactly when no write explains the read, and then changes nothing; on success the problem is exactly the read's encoding on the old problem |
| CheckHistory.ReadEncodingConstrains | cases/transactions/src/bin/transactions_checker.rs:750-875 | a read's encoding only adds to the problem and holds a block constraining that read |
| CheckHistory.ReadsEncodingConstrains | cases/transactions/src/bin/transactions_checker.rs:690-876 | the encodings of all the reads only add to the problem and constrain every read |
| CheckHistory.OrderReads | cases/transactions/src/bin/transactions_checker.rs:690-876 | a rejection implies some read is unexplained; success implies none is and the problem is exactly the old one plus each read's encoding, in order |
| CheckHistory.KeyEncodingConstrains | cases/transactions/src/bin/transactions_checker.rs:609-878 | a key's encoding only adds to the problem and constrains the key's reads, by forced edges with one write and by ordering blocks with several |
| CheckHistory.CheckKey | cases/transactions/src/bin/transactions_checker.rs:609-878 | a rejection implies the key's accesses reject the history; success implies they do not, the key is constrained, and the problem is exactly the key's encoding on the old one; with at most one write a verdict is always reached |
| CheckHistory.ConstrainKey | cases/transactions/src/bin/transactions_checker.rs:569-878 | one key of the loop: a rejection means the history is rejected; success that the key passed, is constrained, and the problem is exactly its encoding on the old one |
| CheckHistory.ConstrainKeys | cases/transactions/src/bin/transactions_checker.rs:569-878 | the keys are visited in ascending order and are exactly the history's keys; a rejection implies the history is rejected; success implies it is not, every key is constrained and the problem is exactly the old one plus each key's encoding in that order |
| CheckHistory.CheckHistory | cases/transactions/src/bin/transactions_checker.rs:525-890 | a verdict of true means no key rejects the history; whenever none does, the verdict is MonoSAT's answer on the DIMACS text of exactly this problem: the acyclicity block, one node per transaction, the real-time edges, then every key's encoding in ascending key order, and nothing else |
| TransactionsMain.MaxTimestampIsMax | cases/transactions/src/bin/transactions_checker.rs:917-993 | the tracked maximum is absent exactly when there are no reports, and otherwise is the largest timestamp and attained |
| TransactionsMain.TrackExplains | cases/transactions/src/bin/transactions_checker.rs:917-993 | the statuses built from the reports agree with them: each transaction started, completed or never mentioned as its reports say |
| TransactionsMain.TrackStep | cases/transactions/src/bin/transactions_checker.rs:917-993 | a report makes tracking fail exactly when it names no transaction, starts one twice, or ends one never started, already ended or started later |
| TransactionsMain.TrackNoneExtends | cases/transactions/src/bin/transactions_checker.rs:917-993 | a failure stays a failure as reports arrive |
| TransactionsMain.TrackStatuses | cases/transactions/src/bin/transactions_checker.rs:917-993 | the loop succeeds exactly when tracking does, with its statuses and maximum timestamp |
| TransactionsMain.CollectKeys | cases/transactions/src/bin/transactions_checker.rs:1000-1010 | the set of every key in every transaction |
| TransactionsMain.NoKeyExNihilo | cases/transactions/src/bin/transactions_checker.rs:1013-1021 | passes exactly when every key in the database occurs in some transaction |
| TransactionsMain.BuildPointRead | cases/transactions/src/bin/transactions_checker.rs:1024-1041 | one Get per key, each with the database's value for it |
| TransactionsMain.PointReadTimestamp | cases/transactions/src/bin/transactions_checker.rs:1033 | 0 with no reports; at or after the latest timestamp, and strictly after once that is at least 10 |
| TransactionsMain.Zip | cases/transactions/src/bin/transactions_checker.rs:1043-1046 | pairs each specification with its status, as long as the shorter list |
| TransactionsMain.PointReadHistoryOf | cases/transactions/src/bin/transactions_checker.rs:1024-1046 | the history passed to the check is the workload's transactions followed by the completed point read |
| TransactionsMain.PointReadCoversKeys | cases/transactions/src/bin/transactions_checker.rs:609-610 | every key's accesses include the point read, so the unreachable (0, 0) arm is never taken |
| TransactionsMain.PointReadAfterCompleted | cases/transactions/src/bin/transactions_checker.rs:1033 | every completed transaction ends before the point read starts |
| TransactionsMain.CheckRun | cases/transactions/src/bin/transactions_checker.rs:892-1051 | no specifications line gives success; a run that stops before the check fails; otherwise the point-read history is checked, and on a history it does not reject the verdict is MonoSAT's answer on exactly `CheckHistory.Encoding` of that history over the workload's keys in ascending order |
| TransactionsMain.PointReadKeys | cases/transactions/src/bin/transactions_checker.rs:999-1031 | the point read adds no key: the history's keys are exactly the workload's, and `check_history` visits them in the point read's order |
| TransactionsWorkload.BytesFactory | cases/transactions/src/bin/transactions_workload.rs:22-30 | panics exactly when the maximum does not fit a `u32`; the length is at least 1 and at most the maximum; the bytes are the draws |
| TransactionsWorkload.BuildKeySpace | cases/transactions/src/bin/transactions_workload.rs:32-42 | fails exactly when the draws never reach `cardinality` distinct keys; otherwise `cardinality` keys in ascending order, the distinct keys of the shortest prefix of draws that has enough |
| TransactionsWorkload.DrawnMonotone | cases/transactions/src/bin/transactions_workload.rs:37-40 | more draws never give fewer distinct keys |
| TransactionsWorkload.OpFor | cases/transactions/src/bin/transactions_workload.rs:185-199 | a write draw gives a remove or an insert of the drawn value and a read draw gives a get, always on the drawn key |
| TransactionsWorkload.FillShape | cases/transactions/src/bin/transactions_workload.rs:178-200 | at most the bound of operations, on distinct key indices, each from one of the draws |
| TransactionsWorkload.FillSaturated | cases/transactions/src/bin/transactions_workload.rs:180 | draws after the bound is reached are ignored |
| TransactionsWorkload.GenerateTransaction | cases/transactions/src/bin/transactions_workload.rs:178-201 | completes exactly when the draws fill the bound, and then holds the filled operations |
| TransactionsWorkload.GeneratedKeysDistinct | cases/transactions/src/bin/transactions_workload.rs:168-202 | a transaction has at most `ops_per_tx` operations, no more than the key space, and never two on the same key |
| TransactionsWorkload.GenerateTransactions | cases/transactions/src/bin/transactions_workload.rs:176-202 | `transaction_count` transactions, each with the bound's number of operations, or a report of the draws that ran out |
| TransactionsWorkload.ChunkSize | cases/transactions/src/bin/transactions_workload.rs:212-217 | undefined with no threads; otherwise the ceiling of the transaction count over the thread count |
| TransactionsWorkload.ThreadRange | cases/transactions/src/bin/transactions_workload.rs:225-226 | each thread's range lies within the transactions |
| TransactionsWorkload.RangesDisjoint | cases/transactions/src/bin/transactions_workload.rs:219-226 | the threads' ranges do not overlap |
| TransactionsWorkload.RangesCover | cases/transactions/src/bin/transactions_workload.rs:212-226 | every transaction falls in some thread's range |
| TransactionsWorkload.Generate | cases/transactions/src/bin/transactions_workload.rs:142-202 | a zero maximum length is refused; otherwise a sorted key space of `cardinality` keys and `transaction_count` transactions, each on distinct keys |
| RandomOpsCodec.EncodeBatch | cases/random_ops/src/lib.rs:66-80 | the bytes written for a batch are its encoding |
| RandomOpsCodec.Encode | cases/random_ops/src/lib.rs:59-83 | the bytes written for an operation are its encoding |
| RandomOpsCodec.ParseNumber | cases/random_ops/src/lib.rs:86-141 | a parsed counter is at most the type's maximum |
| RandomOpsCodec.ParseDigits | cases/random_ops/src/lib.rs:86-141 | the digit loop computes the parsed number, failing on overflow |
| RandomOpsCodec.DigitRun | cases/random_ops/src/lib.rs:86-141 | finds the end of a run of digits |
| RandomOpsCodec.DecodeBatchLoop | cases/random_ops/src/lib.rs:150-176 | the batch loop decodes exactly the batch the specification reads |
| RandomOpsCodec.Decode | cases/random_ops/src/lib.rs:85-184 | the decoder's result is the specification decoding of the line |
| RandomOpsCodec.DecodeEncode | cases/random_ops/src/lib.rs:59-184 | decoding an operation's encoding gives the operation back |
| RandomOpsCodec.DecodeBatchEncoding | cases/random_ops/src/lib.rs:59-184 | decoding a batch's encoding gives the batch back |
| RandomOpsCodec.DecodeRejectsBadTag | cases/random_ops/src/lib.rs:146-183 | a line starting with an unknown tag is rejected, as is the empty line |
| RandomOpsCodec.DecodeRejectsWideKey | cases/random_ops/src/lib.rs:86-103 | a key above 255 is rejected |
| RandomOpsCodec.DecodeRejectsWideCounters | cases/random_ops/src/lib.rs:105-141 | a crash counter above 2^32 - 1 or an id above 2^64 - 1 is rejected |
| RandomOpsCodec.DecodeRejectsNonDigit | cases/random_ops/src/lib.rs:86-141 | a counter field with a non-digit is rejected |
| RandomOpsCodec.DecodeRejectsEmptyBatchKey | cases/random_ops/src/lib.rs:150-176 | an empty number inside a batch is rejected |
| RandomOpsCodec.DecodeRejectsBadBatchTag | cases/random_ops/src/lib.rs:150-176 | an unknown tag inside a batch is rejected |
| RandomOpsCodec.Records | cases/random_ops/src/lib.rs:232-246 | the lines of an input contain no newline |
| RandomOpsCodec.OpReader.constructor | cases/random_ops/src/lib.rs:220-227 | a reader over the whole input |
| RandomOpsCodec.OpReader.Next | cases/random_ops/src/lib.rs:229-247 | at the end of input (or a trailing fragment without newline) nothing; otherwise the decoding of the next line, which is consumed |
| RandomOpsCodec.ReadAll | cases/random_ops/src/lib.rs:229-247 | reading to the end decodes every line of the input |
| RandomOpsCodec.ReadHistory | cases/random_ops/src/lib.rs:559-599 | reading the newline-terminated encodings of a history gives the history back |
| RandomOpsCodec.ValueFactory | cases/random_ops/src/lib.rs:256-267 | two bytes of the counter, followed, when the high byte is a multiple of 4, by `hi * SEGMENT_SIZE / 4 * counter` copies of the low byte |
| RandomOpsCodec.DecodeValue | cases/random_ops/src/lib.rs:249-254 | defined exactly on slices of at least two bytes that are exactly two bytes long when the first byte is not a multiple of 4, and then the big-endian value of the first two bytes |
| RandomOpsCodec.DecodeValueFactory | cases/random_ops/src/lib.rs:249-267 | decoding a written value, or a key, gives its counter back, and a value starts with its key |
| RandomOpsCodec.KeyBytesInjective | cases/random_ops/src/lib.rs:312-333 | distinct counters give distinct tree keys |
| RandomOpsReference.Inc16 | cases/random_ops/src/lib.rs:365 | the `u16` counter increment, wrapping at 2^16 |
| RandomOpsReference.Inc32 | cases/random_ops/src/lib.rs:345-378 | the `u32` counter increment, wrapping at 2^32 |
| RandomOpsReference.AsIsize | cases/random_ops/src/lib.rs:386-395 | the `as isize` cast of an id, two's complement |
| RandomOpsReference.PruneVersions | cases/random_ops/src/lib.rs:434-463 | keeps a contiguous run of the versions starting at the last version of a committed batch (or at the start), ends before the first version of an uncommitted batch, and keeps no other committed-batch version |
| RandomOpsReference.Reference.constructor | cases/random_ops/src/lib.rs:300-308 | the empty reference with its counters at their start values |
| RandomOpsReference.Reference.InsertVersion | cases/random_ops/src/lib.rs:312-333 | records a present version of the key named by the set counter, tagged with the batch, starting the key with an absent version when new |
| RandomOpsReference.Reference.RemoveVersion | cases/random_ops/src/lib.rs:334-343 | records an absent version of a key the reference knows, and leaves an unknown key alone |
| RandomOpsReference.Reference.UpdateBefore | cases/random_ops/src/lib.rs:310-397 | succeeds exactly when the specification step does, and then moves to its state |
| RandomOpsReference.Reference.UpdateAfter | cases/random_ops/src/lib.rs:399-422 | moves to the specification state after the operation |
| RandomOpsReference.Reference.PruneReference | cases/random_ops/src/lib.rs:434-463 | prunes every key's versions |
| RandomOpsReference.ConstructReference | cases/random_ops/src/lib.rs:425-432 | replaying a history gives the specification reference, or failure |
| RandomOpsReference.SetRecordsKey | cases/random_ops/src/lib.rs:312-333 | a set appends a present version under the set counter (after an absent one for a new key), stamps the crash epoch, leaves other keys alone, and afterwards advances the set counter modulo 2^16 |
| RandomOpsReference.DelOnlyExisting | cases/random_ops/src/lib.rs:334-343 | a delete appends an absent version to a known key, leaves an unknown key absent, and touches no other key |
| RandomOpsReference.BatchAdvancesCounters | cases/random_ops/src/lib.rs:345-378 | a batch advances the set counter by its number of sets modulo 2^16, keeps the other counters, loses no key, and afterwards the batch counter advances by one modulo 2^32 |
| RandomOpsReference.IdMustGrow | cases/random_ops/src/lib.rs:386-395 | an id result is accepted exactly when it exceeds the largest id seen |
| RandomOpsReference.FlushKeepsLast | cases/random_ops/src/lib.rs:406-417 | a flush reduces each key written in the current crash epoch with several versions to its last version, and changes nothing else |
| RandomOpsReference.CrashPrunes | cases/random_ops/src/lib.rs:382-385 | a restart advances the crash counter modulo 2^32 and prunes every key with other than one version, leaving no version of an uncommitted batch |
| RandomOpsReference.ConstructSucceedsIff | cases/random_ops/src/lib.rs:425-432 | replaying succeeds exactly when the history's id results strictly increase from -1 |
| RandomOpsReference.MaxIdOnlyFromIds | cases/random_ops/src/lib.rs:386-395 | only an id result changes the largest id seen, and sets it to that id |
| RandomOpsReference.StepKeepsValues | cases/random_ops/src/lib.rs:310-422 | every step keeps the invariant that each present version's value is its own key |
| RandomOpsReference.PruneKeepsValues | cases/random_ops/src/lib.rs:434-463 | pruning keeps that invariant |
| RandomOpsReference.FlushKeepsValues | cases/random_ops/src/lib.rs:406-417 | a flush keeps that invariant |
| RandomOpsReference.BatchKeepsValues | cases/random_ops/src/lib.rs:345-378 | a batch keeps that invariant |
| RandomOpsReference.ConstructKeepsValues | cases/random_ops/src/lib.rs:425-432 | a whole replay keeps that invariant |
| RandomOpsVerify.RefsFromSound | cases/random_ops/src/lib.rs:471-483 | the reference iterator yields reference entries with their versions, in strictly ascending key order |
| RandomOpsVerify.RefsFromComplete | cases/random_ops/src/lib.rs:471-483 | the reference iterator yields every reference key |
| RandomOpsVerify.SeekReference | cases/random_ops/src/lib.rs:484-535 | the inner `while let`: either fails exactly where the walk fails, or stops at the entry after which the walk goes on with the next tree key |
| RandomOpsVerify.SeekPastAbsent | cases/random_ops/src/lib.rs:484-492 | the inner loop skips every reference entry whose versions are all absent, so such entries decide nothing: seeking past them is seeking at the end of the reference |
| RandomOpsVerify.WalkWithoutUsableEntries | cases/random_ops/src/lib.rs:476-550 | against reference entries that are all absent, a tree with a key other than the batch counter's passes exactly when every key decodes and the walk is the one as written; a tree holding only the batch counter passes exactly when the trailing loop finds no entry whose versions are all present |
| RandomOpsVerify.CheckTreeAfterReference | cases/random_ops/src/lib.rs:471-553 | against an exhausted reference, the check as written accepts exactly the trees whose keys all decode, and the corrected check exactly the trees holding nothing but the batch counter |
| RandomOpsVerify.VerifyAgainstReference | cases/random_ops/src/lib.rs:471-553 | accepts exactly the trees the corrected check accepts, and those the source's check accepts too |
| RandomOpsVerify.WalkPresent | cases/random_ops/src/lib.rs:537-550 | on acceptance, every key whose versions are all present is in the tree |
| RandomOpsVerify.LenientKeysExplained | cases/random_ops/src/lib.rs:476-535 | on acceptance by the check as written, over a tree in key order, every tree key other than the batch counter decodes, and either the reference has an entry for it that may be present or every reference entry above it is all absent (a key below the next usable entry fails the `assert_eq!` or the `panic!`) |
| RandomOpsVerify.StrictKeysAllowed | cases/random_ops/src/lib.rs:484-535 | on acceptance by the corrected check, every tree key has a version in the reference that may be present |
| RandomOpsVerify.StrictImpliesLenient | cases/random_ops/src/lib.rs:484-535 | the corrected check never accepts a tree the source's check rejects |
| RandomOpsVerify.CheckTreeAcceptsUnexpectedKeys | cases/random_ops/src/lib.rs:484-535 | the source's check accepts a tree key the reference never had, and a key whose only version is absent; the corrected check rejects both |
| RandomOpsVerify.AgreeingTreePasses | cases/random_ops/src/lib.rs:471-553 | a tree holding every required key, no key whose versions are all absent, and any choice of the uncertain keys passes both checks |
| RandomOpsVerify.VerifyMeaning | cases/random_ops/src/lib.rs:471-553 | on acceptance by the corrected check, every key the reference requires is in the tree and every tree key other than the batch counter is a reference key that may be present |
| RandomOpsVerify.SortedRefsAgreeingTreePasses | cases/random_ops/src/lib.rs:471-553 | the same for the reference map in its iteration order |
| InsertLoop.Expected | cases/insert_loop/src/lib.rs:30-38 | the round after the run: one lower, and `CYCLE - 1` below round 0, never the run's own round |
| InsertLoop.PrefixRun | cases/insert_loop/src/lib.rs:23-29 | the end of the run of values sharing the first value's prefix |
| InsertLoop.Scan | cases/insert_loop/src/lib.rs:7-66 | the empty tree gives zeroes |
| InsertLoop.ScanAcceptsTwoRuns | cases/insert_loop/src/lib.rs:7-66 | the check accepts exactly the empty tree and the trees with a run of one round followed only by the previous round, and reports that run's length less one and its round |
| InsertLoop.ScanRejectsAt | cases/insert_loop/src/lib.rs:42-54 | any value after the run that misses the expected round rejects the tree |
| InsertLoop.ScanAccepts | cases/insert_loop/src/lib.rs:42-54 | a tree whose values after the run all hold the expected round is accepted |
| InsertLoop.ScanRuns | cases/insert_loop/src/lib.rs:14-54 | the loops accept exactly when the check does, with the count wrapped to 32 bits |
| InsertLoop.FirstMiss | cases/insert_loop/src/lib.rs:42-54 | the first value from a point on that misses the round, or the end |
| InsertLoop.Verify | cases/insert_loop/src/lib.rs:7-66 | the result is the check's count modulo 2^32, its round and the wrap counter, or a panic on a malformed value or counter |
| InsertLoopChecker.CheckTree | cases/insert_loop/src/bin/insert_loop_checker.rs:14-56 | the checker passes exactly when the library check accepts |
| InsertLoopChecker.CheckerAgreesWithVerify | cases/insert_loop/src/bin/insert_loop_checker.rs:14-56 | with a well-formed wrap counter, the checker and `verify` accept the same trees, exactly those of the two-run shape |
| InsertLoopWorkload.LoopCount | cases/insert_loop/src/bin/insert_loop_workload.rs:9-21 | the default (`CYCLE * 10`) without an argument or with an empty one, otherwise the parsed `usize`, or failure |
| InsertLoopWorkload.InsertAtShape | cases/insert_loop/src/bin/insert_loop_workload.rs:25-40 | the insert for counter `hu` writes the four-byte key `hu mod CYCLE` with a value that starts with the round `hu / CYCLE` and continues with the drawn number of zero bytes |
| InsertLoopWorkload.RunInserts | cases/insert_loop/src/bin/insert_loop_workload.rs:25-40 | the loop issues exactly the loop count's inserts, the i-th for counter `(i + 1) mod CYCLE^2`, since the counter is incremented before each insert and reset once its round reaches `CYCLE`; with each padding length drawn below `SEGMENT_SIZE / 3`, every value is its 4-byte round number followed by that many zero bytes, so shorter than `4 + SEGMENT_SIZE / 3` |
| InsertLoopWorkload.KeyOrder | cases/insert_loop/src/bin/insert_loop_workload.rs:33 | smaller keys sort first in sled's byte order |
| InsertLoopWorkload.NextCounter | cases/insert_loop/src/bin/insert_loop_workload.rs:27-31 | the next counter moves to the next key in the same round, to key 0 of the next round, or back to counter 0 after the last round |
| InsertLoopWorkload.DbRuns | cases/insert_loop/src/bin/insert_loop_workload.rs:25-40 | a database matching the inserts up to counter `hu` holds round `hu / CYCLE` at the keys up to `hu mod CYCLE`, the previous round above them, and has the key `hu mod CYCLE` |
| InsertLoopWorkload.DbMatchesAccepted | cases/insert_loop/src/bin/insert_loop_workload.rs:25-40 | a database matching the inserts up to some counter is accepted by the check |
| InsertLoopWorkload.RunsAccepted | cases/insert_loop/src/lib.rs:7-66 | a tree holding one round up to a present key and the previous round after it is accepted |
| InsertLoopWorkload.PrefixesAccepted | cases/insert_loop/src/bin/insert_loop_workload.rs:25-40 | the database after every prefix of the workload's inserts, where a crash may stop it, passes the check |
| InsertLoopWorkload.PrefixKeys | cases/insert_loop/src/bin/insert_loop_workload.rs:33 | after any prefix of the inserts every key present is one of the `CYCLE` four-byte keys |
| InsertLoopWorkload.EmptyTree | cases/insert_loop/src/lib.rs:7-66 | the database before any insert reads as the empty tree |
| Batches.FirstValue | cases/batches/src/lib.rs:6-12 | the value under the tree's least key |
| Batches.Verify | cases/batches/src/lib.rs:5-33 | the loop's result is `verify`'s: the empty tree gives 0, a missing batch key or a key disagreeing with the first value panics, else the first value's round |
| Batches.VerifyMeaning | cases/batches/src/lib.rs:13-28 | on acceptance, every batch key is present and holds the first value's round |
| Batches.VerifyReadsOnly | cases/batches/src/lib.rs:5-33 | the verdict depends only on the first value and the batch keys |
| Batches.KeyZeroFirst | cases/batches/src/lib.rs:6-12 | in a tree of batch keys, key 0 is the first entry |
| Batches.UniformAccepted | cases/batches/src/lib.rs:5-33 | a tree whose batch keys all hold one round is accepted with that round |
| Batches.ConsistentIffAccepted | cases/batches/src/lib.rs:5-33 | among trees of batch keys, `verify` accepts exactly the empty tree and those whose keys all hold one round |
| Batches.DoBatch | cases/batches/src/bin/batches_workload.rs:10-29 | the batch removes every batch key, or inserts every batch key with the round and a padding of 0 to `SEGMENT_SIZE / 3 - 1` zero bytes |
| Batches.RemovesApplied | cases/batches/src/bin/batches_workload.rs:14-18 | a removing batch deletes the batch keys |
| Batches.InsertsApplied | cases/batches/src/bin/batches_workload.rs:19-26 | an inserting batch writes each key's value |
| Batches.BatchTouchesBatchKeys | cases/batches/src/bin/batches_workload.rs:10-29 | a batch leaves every other key unchanged |
| Batches.BatchSettles | cases/batches/src/bin/batches_workload.rs:10-29 | after a batch the tree is empty or uniform in the batch's round |
| Batches.BatchOutcome | cases/batches/src/bin/batches_workload.rs:10-29 | after a batch, `verify` returns 0 for a removing batch and the round for an inserting one |
| Batches.CounterStart | cases/batches/src/bin/batches_workload.rs:48-53 | 0 without a counter, otherwise its decoding |
| Batches.RoundNext | cases/batches/src/bin/batches_workload.rs:55-57 | the round after n batches advances by one, wrapping at 2^32 |
| Batches.BatchForUnique | cases/batches/src/bin/batches_workload.rs:10-29 | the batch `do_batch` builds is determined by the round and the draws: any batch meeting its description is `BatchOf` of them |
| Batches.ChainAt | cases/batches/src/bin/batches_workload.rs:55-60 | read at any step, the trace says state `j + 1` is state `j` with the batch of round `j + 1` (counted from `verify`'s round) applied |
| Batches.TraceStep | cases/batches/src/bin/batches_workload.rs:55-60 | applying the batch `do_batch` builds for the next round extends the trace by exactly the previous state with that batch applied |
| Batches.TraceSettled | cases/batches/src/bin/batches_workload.rs:31-63 | when the run starts from a tree of batch keys only, every later state of the trace holds only batch keys and is empty after a removing batch or uniform in its batch's round after an inserting one |
| Batches.NextBatch | cases/batches/src/bin/batches_workload.rs:55-60 | one iteration: the round advances by one (wrapping at 2^32), the new tree is exactly the old one with that round's batch, built from its draws, applied, and the counter tree holds the loop's counter |
| Batches.RunBatches | cases/batches/src/bin/batches_workload.rs:55-60 | applies `batch_count - counter_start` batches; state `j + 1` is exactly state `j` with the batch of round `i0 + j + 1` applied, the last state is the final tree, and the counter tree holds `batch_count - 1` |
| Batches.Run | cases/batches/src/bin/batches_workload.rs:31-63 | proceeds exactly when `verify` and the counter succeed; then each state is exactly the previous one with the next round's batch applied, from the round `verify` returned, and the counter is left at `batch_count - 1` |
| Batches.TraceAccepted | cases/batches/src/bin/batches_workload.rs:31-63 | every state the run passes through, where a crash may stop it, is accepted by `verify` with the round of its last batch, or 0 after a removing one |
| Batches.ParseU32 | cases/batches/src/bin/batches_workload.rs:80-89 | accepts exactly the parsable numbers below 2^32 |
| Batches.BatchCount | cases/batches/src/bin/batches_workload.rs:80-89 | the default without an argument, otherwise the parsed `u32` |
| Batches.BatchCountDecimal | cases/batches/src/bin/batches_workload.rs:80-89 | a number's decimal text is read back as it; the empty text is refused |
| Basic.ShiftBytesBy | cases/basic/src/bin/basic_checker.rs:3-9 | the buffer is the input rotated left by the shift |
| Basic.ShiftZero | cases/basic/src/bin/basic_checker.rs:3-9 | a shift by 0 changes nothing |
| Basic.ShiftCongruent | cases/basic/src/bin/basic_checker.rs:3-9 | shifts equal modulo the length agree |
| Basic.ShiftCompose | cases/basic/src/bin/basic_checker.rs:3-9 | two shifts compose to one by their sum |
| Basic.ShiftRotation | cases/basic/src/bin/basic_checker.rs:3-9 | a shift is the tail from the shift point followed by the head |
| Basic.ShiftPermutation | cases/basic/src/bin/basic_checker.rs:3-9 | a shift keeps the multiset of bytes |
| Basic.ShiftCollision | cases/basic/src/bin/basic_checker.rs:3-9 | shifts that coincide keep coinciding after a further common shift |
| Basic.Check | cases/basic/src/bin/basic_checker.rs:11-25 | passes exactly when "Flushed" was not printed or all ten entries are present with their values |
| Basic.Workload | cases/basic/src/bin/basic_workload.rs:11-21 | the ten inserts of shifted keys and values |
| Basic.InsertedHolds | cases/basic/src/bin/basic_workload.rs:11-21 | after the inserts every key maps to its value, even where keys collide |
| Basic.WorkloadPasses | cases/basic/src/bin/basic_checker.rs:11-25 | the database the workload leaves passes the check |
| Basic.UnflushedPasses | cases/basic/src/bin/basic_checker.rs:17 | without "Flushed" in the output any database passes |

## Left out

- sled itself: opening, iterating, `get`, `insert`, `remove`, `apply_batch`, `flush`, `verify_integrity`, `generate_id` and the configuration are not modelled; a tree is a map or its values in key order.
- Randomness: every `rand` draw (Beta-distributed lengths, `gen_bool`, `gen_range`, padding lengths, `Op::generate`) is a parameter holding the draws made.
- TransactionsWorkload.BytesFactory: the Beta-distributed length is a parameter `scaledLength`; the floating-point scaling and cast are not modelled.
- MonoSAT: the solver is the parameter `monosat`; spawning it, the probe that checks it is installed, and its error exits are not modelled.
- Cnf.ToCnf: the rewriting fixpoint runs under a `fuel` bound; running out of fuel is an explicit outcome and `CheckHistory.CheckHistory` then reports no verdict. The source loops until the fixpoint.
- The JSON encoding of specifications and reports (serde) is not modelled; they arrive as values.
- The threads, the `Barrier`, the clock (`Instant`) and the report printing of the transactions workload are not modelled; the thread ranges are.
- Process plumbing: `fork`, `waitpid` and exit codes in the crash-recovery loop are outcomes passed as parameters; `start_sigkill_timer`, `block_on_database_lock`, `eprintln!`, `dbg!` and the random_ops workload's pipes and child processes are not modelled.
- The thin `main` functions of the random_ops and batches checkers, which only open the database and call `verify`, are not modelled.
- The copies of `shift_bytes_by` in the other basic binaries are the same function and are not modelled separately; the random byte string is a parameter.
- Basic.Check: `stdout.contains("Flushed")` is a parameter `flushed` related to the output by the precondition.
- Basic.ShiftBytesBy: `i + shift` overflowing `usize` is not modelled.
- Fixed-width arithmetic follows release builds: the `u16` set counter, the `u32` counters, `i += 1` in the batches workload and the `u128` timestamp multiplication wrap instead of panicking.
- TransactionsMain.PointReadTimestamp: states bounds only when the multiplication does not wrap.
- TransactionsMain.PointReadAfterCompleted: holds only when the latest timestamp is at least 10 and the multiplication does not wrap.
- Batches.BatchOutcome: assumes the tree holds only batch keys.
- Batches.TraceAccepted: assumes the tree holds only batch keys.
- InsertLoopWorkload.PrefixesAccepted: starts from an empty database, and models a crash as stopping after a prefix of the inserts.
- RandomOpsCodec.OpReader.Next: I/O errors from the reader are not modelled.
- A `sled::Batch` is a sequence of writes applied at once; recovery showing part of a batch is not modelled.
- CheckHistory.SingleWrite: on a rejection it states only that the problem was extended, not which reads' edges were added before the rejection, because `check_history` returns `false` there and discards the problem.
- CheckHistory.OrderReads: on a rejection, or when `to_cnf` runs out of fuel, it states only that the problem was extended, because the problem is discarded there.
- CheckHistory.CheckKey: on a rejection, or when `to_cnf` runs out of fuel, it states only that the problem was extended, because the problem is discarded there.
- CheckHistory.ConstrainKey: on a rejection, or when `to_cnf` runs out of fuel, it states only that the problem was extended, because the problem is discarded there.
- CheckHistory.ConstrainKeys: on a rejection, or when `to_cnf` runs out of fuel, it states only that the problem was extended, because the problem is discarded there.
- CheckHistory.AddOrdering: the block added for a read is pinned by its meaning, as clauses that hold exactly when the read's ordering formula does, and not as the literal clause list `to_cnf` produces, because Cnf.ToCnf is itself specified by meaning; the same holds for the blocks inside `CheckHistory.ReadEncoding` and everything built from it.

## Findings

| source | as written | input that shows it | evidently intended | confidence | as-written member | corrected member |
|---|---|---|---|---|---|---|
| cases/random_ops/src/lib.rs:484-535 | the inner walk ends when the reference entries run out and the tree key is then accepted without any check, so a key the reference never had, or whose every remaining version is absent, passes | tree holding only key 7 against an empty reference; tree holding only key 5 against a reference whose only entry for 5 is absent | a tree key with no reference version that may be present is rejected | not executed | RandomOpsVerify.CheckTreeAcceptsUnexpectedKeys | RandomOpsVerify.VerifyAgainstReference |
