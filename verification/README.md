# Acetone: verified models of its core

Acetone is a version-controlled property graph queried in Cypher. This project models the parts of it whose
correctness spans many functions or many steps, and proves what they promise.

- **Write replay** (`Values`, `Replay`, `Persist`, `Conservation`, `Uniqueness`, `UniqueLimits`, `Refusals`,
  `WriteBack`, `Acceptance`). `Replay` gives the plan a statement's net changes lead to, or the error they stop at;
  `Persist` is the same replay as it runs, with its loops, its claim set and its staged transaction, proved to stage
  exactly that plan. `Acceptance` describes the plan without computing it and proves the two agree, so it says which
  statements are accepted. The other theorems are about the whole graph before and after.
- **Cypher expressions** (`Syntax`, `Grammar`, `Parser`, `AstWalk`, `SizeBound`, `TreeSize`, `Printer`, `ReadSteps`,
  `RoundTrip`, `Derivation`, `Complete`, `Precedence`, `Patterns`, `Produced`, `Desugar`). `Grammar` gives what each
  precedence level reads as a function of the tokens; `Parser.Cursor` is the mutable recursive-descent parser, proved to
  agree with it. `Derivation` is the expression grammar by itself, as what tokens spell; it and `Complete` prove the
  parser sound and complete for it. `Printer` parenthesises by precedence, and always doubles the pair around `NOT $p`.
  `Precedence` and `Patterns` say how operators group and which brackets open something else.
- **Merge and conflict index** (`CellMerge`, `Conflicts`).
- **Daemon concurrency** (`WriterLock`, `Drain`): each system call, crash and thread step is one transition, the holder
  line being written in two parts; the theorems are about every interleaving.
- **Result comparison** (`Expected`): greedy multiset matching over structural values, and the normal form whose
  equality it decides.
- **Suggestions and benchmark helpers** (`Suggest`, `Batch`).

`Order`, `Floats` and `Wrappers` hold the byte-string order, float equality and `Option`/`Result`.

## Where the code and a natural property part

Each of these keeps the code as it is and shows a concrete input. The first four state exactly when the property does
hold; the last is one way, as said there.

- *Stale-lock recovery can take a live writer's lock.* `break_stale_lock` reads the holder, probes it, then unlinks by
  name. If the holder it read releases and exits in between, and a new writer creates the file, that writer's lock is
  removed. `WriterLock.WindowBreaksExclusion` is such a run. `WriterLock.LocksAreTakenOnlyInTheWindow` shows nothing
  else takes a live lock, and `WriterLock.ExclusiveExactly` that a run keeps to one live writer, now and under any next
  creation, if and only if it never unlinks inside that window.
- *A UNIQUE value nested exactly to the limit escapes a declared index.* A list 128 levels deep can be stored and
  claimed, but the index key wraps it in one more list and cannot be encoded, so the probe collides with nothing
  (`UniqueLimits.DeepDuplicateIsAdmitted`). `Uniqueness.SuccessKeepsUnique` gives the exact condition.
- *An index rejects what the scan admits.* The index also covers nodes that bear the label as a secondary label; the
  scan and the declaration look at primary labels only (`UniqueLimits.SecondaryBearerIsRejectedByIndexOnly`). On
  non-null values the index can probe, the two agree if and only if no such node holds the value
  (`Uniqueness.IndexAgreesWithScanExactly`), and `Uniqueness.RefusedExactly` says which statements are refused.
- *`(NOT $p)` has the shape of a node pattern*, so before `- [1] - 2` it is taken for one
  (`Produced.SinglePairIsTakenForPattern`). A single pair around any form that needs one is taken for a pattern if and
  only if the form is `NOT $p` and a connector follows (`RoundTrip.SinglePairExactly`). Likewise `[x IN xs]` opens a
  comprehension, so such a first list item is parenthesised.
- *The greedy row comparison can fail a matching result when an actual path has a self-loop*
  (`Expected.SelfLoopFalseFailure`). Without one it never does; with one it may still pass.

## Assumptions

- Encoded keys are injective and an overlay id never decodes as a stored key, so keys stand for their encodings and a
  base entity's id is its key. Zeros lose their sign in key positions.
- A statement's changes are net (`Conservation.NetNodes`, `Conservation.NetEdges`): deletions and modifications name
  distinct stored entities and are disjoint.
- UNIQUE properties are distinct and are not key properties (`Uniqueness.WellDeclared`).
- An existing index map holds exactly the entries of the stored nodes.
- Floats are split into NaN, the two zeros and other bit patterns.
- Clocks, signals, sockets and process ids enter as transitions or parameters.

## Model

| member | source | states |
|---|---|---|
| `Uniqueness.SuccessKeepsUnique` | crates/acetone-cypher/src/persist.rs:507-657 | After a successful replay of any changes on a graph that satisfies its UNIQUE declarations over non-null values, the whole final graph satisfies them, by index or scan alike, if and only if the statement does not write a value too deep for a declared index that a surviving node already holds |
| `Uniqueness.ShallowValuesKeepUnique` | crates/acetone-cypher/src/persist.rs:587-638 | With values that nest below the limit the final graph satisfies every UNIQUE declaration |
| `Uniqueness.ViolationIsReal` | crates/acetone-cypher/src/persist.rs:560-606 | A reported violation names an upserted node and a second holder of its value in the graph the statement asks for: a clash of the declaration, two nulls, or a secondary holder under an index; so value moves and delete-plus-create pass |
| `Uniqueness.RefusedExactly` | crates/acetone-cypher/src/persist.rs:566-606 | Where nothing else is wrong, UNIQUE refuses a statement if and only if some upserted node has a rival: another upserted node of its label with an equal claimable value, or a surviving stored node whose equal value the check compares |
| `Uniqueness.CollisionsExactly` | crates/acetone-cypher/src/persist.rs:587-656 | For every value, the colliding stored nodes are none if the probe cannot see it, and otherwise exactly the scan's and, under an index that answers, the secondary holders, null left out there |
| `Uniqueness.IndexAgreesWithScanExactly` | crates/acetone-cypher/src/persist.rs:612-656 | On a non-null value the index can probe, index and scan give the same collisions if and only if no node bears the label as a secondary one and holds the value |
| `UniqueLimits.DeepDuplicateIsAdmitted` | crates/acetone-cypher/src/persist.rs:612-638 | A list nested 128 deep that a stored node already holds is admitted when an index is declared and refused by the scan |
| `UniqueLimits.SecondaryBearerIsRejectedByIndexOnly` | crates/acetone-graph/src/index.rs:60-75 | A value held by a node that bears the label only as a secondary one is refused with an index and admitted without |
| `Conservation.NodesConserved` | crates/acetone-cypher/src/persist.rs:160-253 | Undeleted stored nodes survive, nodes outside the statement keep their records, every created node takes a key that was absent or freed, a modified one keeps its own, and the count is stored minus deleted plus created |
| `Conservation.EdgesConserved` | crates/acetone-cypher/src/persist.rs:242-327 | Created edges have keys distinct from every surviving edge and each other, bound ones are written or deleted at exactly the key they were read from, others keep their records, and the count is stored minus deleted plus created |
| `Conservation.CreatedAreFresh` | crates/acetone-cypher/src/persist.rs:260-291 | No created edge takes the key of a surviving stored edge or of one created before it |
| `Conservation.ModifiedAtOwnKeys` | crates/acetone-cypher/src/persist.rs:292-327 | A modified edge is written at the key it was read from, discriminator included |
| `Conservation.DeletedAtOwnKeys` | crates/acetone-cypher/src/persist.rs:667-679 | A deleted edge is deleted at the key it was read from |
| `Conservation.ReverseFollows` | crates/acetone-graph/src/repo.rs:3138-3152 | Whatever operations are staged, the reverse edge map keeps holding exactly the flipped keys of the forward one |
| `Refusals.KeyRefusalIsReal` | crates/acetone-cypher/src/persist.rs:185-230 | A duplicate-key, immutable-key or repeated-key refusal names a real collision |
| `Refusals.DuplicateEdgeIsReal` | crates/acetone-cypher/src/persist.rs:271-282 | A duplicate-relationship refusal names a surviving stored edge or an earlier created one with the same key |
| `Refusals.SuccessConforms` | crates/acetone-cypher/src/persist.rs:507-558 | After success every upserted node has its required properties, no value contradicts its declared type, and every record can be stored |
| `Refusals.RelationshipsConform` | crates/acetone-cypher/src/persist.rs:283-326 | After success no value of a created or modified relationship, in its record or as the discriminator in its key, contradicts its declared type |
| `Refusals.MatchesExactly` | crates/acetone-model/src/schema.rs:208-224 | A value meets a declaration exactly when it is null, of that type, or an integer declared as a float |
| `WriteBack.NodeWriteBack` | crates/acetone-cypher/src/persist.rs:376-468 | A stored node read by a query and written back unchanged derives the same key and the same record |
| `WriteBack.RelWriteBack` | crates/acetone-cypher/src/persist.rs:292-327 | A stored relationship written back unchanged keeps its key and its record, less a stale copy of the discriminator |
| `WriteBack.CreatedAsAsked` | crates/acetone-cypher/src/persist.rs:685-779 | A created relationship is stored between its resolved endpoints, under its type and declared discriminator, with every other property in the record |
| `WriteBack.CreatedEndpoints` | crates/acetone-cypher/src/persist.rs:681-703 | In every successful plan a created relationship runs between exactly the nodes asked for: a stored endpoint at its own key, an upserted one at the key that node was given, anything else refused |
| `WriteBack.NodeAsAsked` | crates/acetone-cypher/src/persist.rs:376-468 | A node has an identity exactly when one label alone declares a key, its key properties are present with scalar values and the rest can be stored; then the key is those values in order and the record the rest |
| `WriteBack.ModifiedAsAsked` | crates/acetone-cypher/src/persist.rs:292-327 | A modified relationship keeps its key, its discriminator property still equals the one in the key, and the record holds exactly its other properties |
| `WriteBack.HeldIsRead` | crates/acetone-graph/src/index.rs:73-91 | The value an index or check finds under a property is the one a query reads there |
| `Acceptance.PlanExactly` | crates/acetone-cypher/src/persist.rs:160-328 | The replay makes a plan exactly when that plan fits the statement: every identity, placement, check, endpoint, discriminator, record and deletion described on its own |
| `Acceptance.AcceptedExactly` | crates/acetone-cypher/src/persist.rs:160-328 | A statement is accepted if and only if it has such a plan, and it has at most one |
| `Acceptance.KeysExactly` | crates/acetone-cypher/src/persist.rs:166-231 | The keying loop succeeds exactly when every node has an identity, created ones take absent or freed keys, modified ones keep theirs and no two share one |
| `Acceptance.ChecksExactly` | crates/acetone-cypher/src/persist.rs:507-606 | The checks pass exactly when every node has its required properties and declared types and no rival for a UNIQUE value |
| `Acceptance.CreatedExactly` | crates/acetone-cypher/src/persist.rs:260-291 | A relationship is created exactly when its key is free and runs between its endpoints under its type and discriminator, and its record is storable and well typed |
| `Acceptance.ModifiedExactly` | crates/acetone-cypher/src/persist.rs:292-327 | A relationship is modified exactly when its discriminator is unchanged and its record is storable and well typed |
| `Values.EncodingIsEquality` | crates/acetone-model/src/keys.rs:278-351 | On values without NaN, equal key encodings are exactly stored-value equality, signed zeros and nested lists included |
| `Values.NaNEqualsNothing` | crates/acetone-cypher/src/persist.rs:567-577 | A value that holds NaN anywhere equals nothing |
| `Values.WriteBackIsLossless` | crates/acetone-cypher/src/persist.rs:824-849 | A storable value exposed to a query by the read adapter (exec/adapter.rs) and converted back is itself, deferred types included |
| `Values.ConvertExactly` | crates/acetone-cypher/src/persist.rs:824-849 | Exactly the values without maps or graph entities and nested below the limit can be stored, and what is stored reads back as what was written |
| `Values.FitsExactly` | crates/acetone-model/src/keys.rs:278-351 | The encoders accept exactly the values nested at most 128 lists deep whose temporal fields are in range |
| `Values.NormIsSame` | crates/acetone-model/src/keys.rs:278-351 | The encoded form equals the value, up to the sign of a zero |
| `Persist.PersistChanges` | crates/acetone-cypher/src/persist.rs:160-328 | It fails with the planned error, or stages exactly the plan after what was staged before, deletions first, with the reverse map mirrored |
| `Persist.DeriveKeys` | crates/acetone-cypher/src/persist.rs:166-231 | The keying loop computes the planned keys, the set of written keys and the id map, or the planned error |
| `Persist.NodeKeyAndRecord` | crates/acetone-cypher/src/persist.rs:376-468 | The key loop and the property split compute the specified key and record or error |
| `Persist.UniqueChecker.Check` | crates/acetone-cypher/src/persist.rs:507-606 | Existence, types and unique values in order; the claim set becomes the specified one |
| `Persist.UniqueChecker.CheckOne` | crates/acetone-cypher/src/persist.rs:566-604 | One value: claimed once per statement, then refused exactly when a live stored node collides |
| `Persist.UniqueChecker.Scan` | crates/acetone-cypher/src/persist.rs:642-656 | The label scan returns exactly the nodes of the label with an equal value |
| `Persist.UniqueChecker.FindLive` | crates/acetone-cypher/src/persist.rs:591-603 | Superseded and deleted nodes are skipped; anything else is found |
| `Persist.StageCreated` | crates/acetone-cypher/src/persist.rs:271-291 | The growing set of existing keys refuses a duplicate; the staged writes are the planned ones |
| `Persist.StageModified` | crates/acetone-cypher/src/persist.rs:292-327 | The staged writes are the planned ones, or the planned error |
| `Persist.Transaction.PutEdge` | crates/acetone-graph/src/repo.rs:3139-3145 | Appends to both edge maps and keeps them mirrored, or refuses a record that cannot be encoded |
| `Persist.Transaction.DeleteEdge` | crates/acetone-graph/src/repo.rs:3148-3152 | Erases from both edge maps and keeps them mirrored |
| `RoundTrip.RoundTrip` | crates/acetone-cypher/src/parser.rs:1015-1411 | For every expression tree the parser can build, parsing its printed tokens gives the same tree, consumes exactly them and leaves the chain counter alone when the printed form nests within MAX_DEPTH, and fails with the recursion limit exactly when it does not |
| `RoundTrip.Reads` | crates/acetone-cypher/src/parser.rs:1028-1560 | At every level, position, depth and continuation, a printed form is read back whole or its nesting is exactly what passes the limit |
| `RoundTrip.PrintedGroup` | crates/acetone-cypher/src/parser.rs:1823-1935 | No printed parenthesised group is taken for a graph pattern, whatever follows it |
| `RoundTrip.SinglePairExactly` | crates/acetone-cypher/src/parser.rs:1846-1935 | Around any form that needs parentheses, a single pair is taken for a graph pattern if and only if the form is `NOT $p` and a connector follows the pair |
| `RoundTrip.NoComprehension` | crates/acetone-cypher/src/parser.rs:1694-1786 | The first item of a printed list is never taken for a comprehension of either kind |
| `RoundTrip.NoCall` | crates/acetone-cypher/src/parser.rs:1552-1567 | A printed name is never taken for a function call |
| `RoundTrip.ReadsMinSpine` | crates/acetone-cypher/src/parser.rs:1288-1329 | The smallest integer folds from its two tokens, with any postfixes after it |
| `Complete.ParsesExactly` | crates/acetone-cypher/src/parser.rs:1015-1935 | The parser accepts the whole input as a tree exactly when the grammar, stated on token positions without the parser, spells that tree and the input is not refused for its nesting, its chain budget or a construct outside the fragment; so accepted input has one tree |
| `Complete.LevelReads` | crates/acetone-cypher/src/parser.rs:1028-1560 | At every level and position, spelled text before a token that continues nothing is read as exactly its tree or refused for one of those reasons |
| `Derivation.ExpressionDerived` | crates/acetone-cypher/src/parser.rs:1015-1560 | Every tree the parser returns is spelled by the tokens it consumed: no operand, separator or closing bracket is skipped or invented |
| `Precedence.Groups` | crates/acetone-cypher/src/parser.rs:1028-1329 | For any two infix operators between leaves or signed leaves, `x o y p z` groups to the right exactly when `p` is in a tighter group of OR, XOR, AND, comparison, string and list, additive, multiplicative, power; two comparisons chain, within the budget |
| `Precedence.NotBindsLooser` | crates/acetone-cypher/src/parser.rs:1075-1097 | `NOT x o y` negates the whole exactly for comparisons and tighter groups, and only `x` under AND, XOR and OR |
| `Precedence.NotAsOperand` | crates/acetone-cypher/src/parser.rs:1075-1097 | `x o NOT y` is read under AND, XOR and OR, and is refused as a reserved word everywhere else |
| `Precedence.SignedLeafIsSolid` | crates/acetone-cypher/src/parser.rs:1267-1329 | A prefix sign binds tighter than every infix operator |
| `Patterns.PatternExactly` | crates/acetone-cypher/src/parser.rs:1846-1935 | The parser commits to a pattern exactly at balanced parentheses around an optional variable, labels and optional properties, followed by a relationship connector |
| `Patterns.CloseExactly` | crates/acetone-cypher/src/parser.rs:1857-1875 | The scan finds a close exactly when what lies between is balanced |
| `Patterns.RefusedForItsHead` | crates/acetone-cypher/src/parser.rs:1456-1567 | At every level an operand that begins a pattern, comprehension, call, map or CASE is outside the fragment, too large a magnitude is out of range, a reserved word is refused as one and anything else that begins no expression is unexpected |
| `Patterns.ComprehensionExactly` | crates/acetone-cypher/src/parser.rs:1694-1786 | A bracket opens a comprehension exactly before `name IN` or a pattern with an optional `name =` |
| `Patterns.CallExactly` | crates/acetone-cypher/src/parser.rs:1552-1567 | A call is exactly a dotted name and an opening parenthesis |
| `Patterns.MagnitudeExactly` | crates/acetone-cypher/src/parser.rs:1288-1329 | A minus sign saves exactly the magnitude of the smallest integer |
| `Produced.ExpressionFine` | crates/acetone-cypher/src/parser.rs:1015-1560 | Every tree the parser returns from lexed tokens is one the round trip covers |
| `Produced.PrintedFormIsEquivalent` | crates/acetone-cypher/src/parser.rs:1015-1411 | Whatever text an expression was parsed from, its printed form parses to the same tree, or nests to the limit and is refused for exactly that |
| `Produced.SinglePairIsTakenForPattern` | crates/acetone-cypher/src/parser.rs:1846-1935 | `(NOT $p) - [1] - 2` commits to a pattern and fails as an expression |
| `Desugar.ChainMeaning` | crates/acetone-cypher/src/parser.rs:1136-1183 | For any pure three-valued evaluation and every chain length, the built tree means the Kleene conjunction of the adjacent comparisons |
| `Desugar.ComparisonMeaning` | crates/acetone-cypher/src/parser.rs:1099-1183 | Every comparison the parser accepts is a chain of operands in textual order, and its tree means the conjunction of their adjacent comparisons |
| `SizeBound.ExpressionSound` | crates/acetone-cypher/src/parser.rs:1136-1182 | For every successful parse the tree is smaller than twice the weight of the tokens consumed plus the growth of the chain counter, and the counter stays under its cap |
| `SizeBound.FinishSize` | crates/acetone-cypher/src/parser.rs:1136-1182 | The desugared chain is exactly its operands, its comparisons and conjunctions, and what the counter grew by |
| `Parser.ParseExpression` | crates/acetone-cypher/src/parser.rs:106-124 | It accepts exactly what the grammar accepts to the end of input within MAX_AST_DEPTH, returns that tree, and bounds its size by the text |
| `Parser.Cursor.Expression` | crates/acetone-cypher/src/parser.rs:1015-1026 | Agrees with the grammar, terminates, never nests past MAX_DEPTH, and restores the depth on success and error |
| `Parser.Cursor.OperatorLoop` | crates/acetone-cypher/src/parser.rs:1028-1073 | Each left-associative operator level folds as the grammar says |
| `Parser.Cursor.ExprNot` | crates/acetone-cypher/src/parser.rs:1075-1097 | The loop over `NOT`s wraps as the recursive grammar does |
| `Parser.Cursor.ExprComparison` | crates/acetone-cypher/src/parser.rs:1099-1183 | Collecting operators and operands, then desugaring under the budget, agrees with the grammar |
| `Parser.Cursor.ExprUnary` | crates/acetone-cypher/src/parser.rs:1288-1329 | Collected signs, the smallest-integer fold and the wrapping loop agree with the grammar |
| `Parser.Cursor.PostfixFrom` | crates/acetone-cypher/src/parser.rs:1338-1411 | The postfix loop agrees with the grammar |
| `Parser.Cursor.ParenAtom` | crates/acetone-cypher/src/parser.rs:1823-1842 | A pattern commitment or a parenthesised expression, as the grammar decides |
| `Parser.Cursor.FindClose` | crates/acetone-cypher/src/parser.rs:1857-1875 | The counting loop finds the matching close, or none before the end of input |
| `Parser.Cursor.BracketAtom` | crates/acetone-cypher/src/parser.rs:1694-1765 | The item loop agrees with the grammar, comprehensions apart |
| `Parser.Cursor.LooksLikeCall` | crates/acetone-cypher/src/parser.rs:1552-1567 | The dotted-name scan decides whether a call follows |
| `Parser.BuildChain` | crates/acetone-cypher/src/parser.rs:1150-1182 | The loop builds the left fold of the adjacent comparisons |
| `Parser.DuplicatedSize` | crates/acetone-cypher/src/parser.rs:1136-1149 | The saturating sum of what the chain duplicates |
| `AstWalk.AllocatedSize` | crates/acetone-cypher/src/ast.rs:484-530 | The worklist computes the recursive sum |
| `AstWalk.MeasureDepth` | crates/acetone-cypher/src/ast.rs:775-852 | The worklist computes the recursive maximum |
| `AstWalk.TakeChildren` | crates/acetone-cypher/src/ast.rs:623-728 | Moves out exactly what `children` lists, in the same order, and leaves placeholders and empty lists behind |
| `AstWalk.Teardown` | crates/acetone-cypher/src/ast.rs:734-745 | Dropping takes the children of every node exactly once, ends, and leaves of each a husk whose own drop goes no deeper than one placeholder |
| `TreeSize.PrintWeighs` | crates/acetone-cypher/src/ast.rs:484-530 | The size of a tree is the number of its nodes plus the bytes of the names and strings in its printed text |
| `CellMerge.MergeProperties` | crates/acetone-graph/src/cell_merge.rs:67-111 | The merged map and the name-sorted conflicts say of every name exactly what the three-way decision says; failure exactly when an encoding fails |
| `CellMerge.MergeMeans` | crates/acetone-graph/src/cell_merge.rs:51-111 | By the encodings themselves: an agreed property is kept, one side's change is taken, and a conflict is recorded, with all three values, exactly when base, ours and theirs differ pairwise |
| `CellMerge.NoChangeIsLost` | crates/acetone-graph/src/cell_merge.rs:67-111 | Where distinct values have distinct encodings, a property one side left alone is what the other made of it, and only one that all three hold differently is in conflict |
| `CellMerge.FailsExactly` | crates/acetone-graph/src/cell_merge.rs:51-103 | The merge fails exactly when two values it has to compare include one without an encoding |
| `CellMerge.CleanMergeIsBothDeltas` | crates/acetone-graph/src/cell_merge.rs:67-111 | Without a conflict the result is ours with their delta and theirs with our delta, up to canonical equality, and conversely |
| `CellMerge.MergeIsSymmetric` | crates/acetone-graph/src/cell_merge.rs:51-111 | Where a merge succeeds so does the merge with the sides swapped, with the same map and mirrored conflicts |
| `CellMerge.FailureIsSymmetric` | crates/acetone-graph/src/cell_merge.rs:51-111 | An encoding fails with the sides swapped exactly when it failed before |
| `CellMerge.MergeLabels` | crates/acetone-graph/src/cell_merge.rs:118-139 | Strictly sorted, holding exactly the labels the set rule keeps, whatever order or duplicates the inputs had |
| `CellMerge.LabelsMergeAsPresence` | crates/acetone-graph/src/cell_merge.rs:67-139 | Label merge is the property merge of the presence maps, which never conflicts |
| `Conflicts.PrefixNamesTheKey` | crates/acetone-graph/src/conflicts.rs:104-127 | An entry begins with a key's prefix exactly when it is about that map and key |
| `Conflicts.EntryKeyInjective` | crates/acetone-graph/src/conflicts.rs:113-212 | Distinct conflicts have distinct entry keys |
| `Conflicts.DecodeAfterEncode` | crates/acetone-graph/src/conflicts.rs:216-256 | A cell entry decodes to its cell, a graph entry to a marker |
| `Conflicts.BuildConflictsMap` | crates/acetone-graph/src/conflicts.rs:260-271 | The map holds exactly the entries of the conflicts |
| `Conflicts.ClearWritten` | crates/acetone-graph/src/conflicts.rs:280-305 | Exactly the entries under a written prefix go; none left is `None` |
| `Conflicts.RunKeepsOutstanding` | crates/acetone-graph/src/conflicts.rs:260-305 | After any sequence of saves the surviving entries are the cell conflicts on keys never written plus every graph marker |
| `Conflicts.ResolvedExactly` | crates/acetone-graph/src/conflicts.rs:280-305 | The merge is resolved exactly when every conflicted key was written and there were no graph markers |
| `Conflicts.OrderIrrelevant` | crates/acetone-graph/src/conflicts.rs:280-305 | Two sequences that write the same keys leave the same map |
| `Conflicts.ReadEntries` | crates/acetone-graph/src/conflicts.rs:309-329 | The loop decodes every entry in key order or fails |
| `Conflicts.ReadBack` | crates/acetone-graph/src/conflicts.rs:309-329 | Reading a built map gives back its cell conflicts once each and the number of markers |
| `WriterLock.StepKeeps` | crates/acetone-cli/src/serve.rs:45-89 | Every step but an unlink inside the window keeps the lock invariant |
| `WriterLock.BreachExactly` | crates/acetone-graph/src/lock.rs:201-234 | An enabled unlink removes a live writer's lock exactly when the holder it read has released since and a live writer owns the file |
| `WriterLock.LocksAreTakenOnlyInTheWindow` | crates/acetone-graph/src/lock.rs:201-234 | In every interleaving a live lock is taken if and only if that window is hit |
| `WriterLock.ExclusiveExactly` | crates/acetone-cli/src/serve.rs:45-89 | Every state of a run and every creation attempted from it keeps to one live writer if and only if no recovery unlinks inside the window |
| `WriterLock.UnbreachedRunsAreExclusive` | crates/acetone-cli/src/serve.rs:45-89 | Every run that never unlinks inside the window, crashes and pid reuse included, has at most one live writer and no live lock taken |
| `WriterLock.CalmRunsAreExclusive` | crates/acetone-cli/src/serve.rs:45-89 | In particular runs in which no holder releases between a recovery's read and its unlink keep one live writer at a time |
| `WriterLock.AtMostTwoRuns` | crates/acetone-cli/src/serve.rs:79-89 | Every wrapped operation runs at most twice |
| `WriterLock.StaleLockIsTakenOver` | crates/acetone-cli/src/serve.rs:61-89 | A daemon thread refused by a dead writer's lock takes it over, and nothing else changes |
| `WriterLock.ReusedPidIsTakenOver` | crates/acetone-graph/src/lock.rs:201-234 | A lock whose recorded pid belongs to a process with another start time is taken over |
| `WriterLock.LiveLockIsRespected` | crates/acetone-graph/src/lock.rs:201-234 | A recovery that meets a live writer's recorded lock ends and leaves it alone |
| `WriterLock.WriterTakesAndReturns` | crates/acetone-graph/src/lock.rs:54-93 | A writer that finds no lock file takes the lock, records its pid and start time, and leaves no file behind; one that finds a file is refused |
| `WriterLock.WindowBreaksExclusion` | crates/acetone-graph/src/lock.rs:201-234 | A run that ends with two live writers |
| `Drain.StepKeeps` | crates/acetone-cli/src/serve.rs:1850-1913 | Every step keeps the permit, acceptor and handler invariant |
| `Drain.EveryRunIsSafe` | crates/acetone-cli/src/serve.rs:309-424 | In every interleaving permits are conserved, no more than the allowed requests execute, an early end has no live handler, at most one handler is spawned after the flag, and a connection reads and answers at most one request after it |
| `Drain.NoSpawnWhileDraining` | crates/acetone-cli/src/serve.rs:309-424 | From the state in which the drain begins, every continuation of the run has only handlers that were live then |
| `Drain.NeverStranded` | crates/acetone-cli/src/serve.rs:309-331 | Once the flag is set neither a wake-up nor an accept error sends the acceptor back to waiting |
| `Drain.EverythingIsAccounted` | crates/acetone-cli/src/serve.rs:309-395 | In every interleaving each accepted connection got a handler, was refused for want of a permit, was dropped by the drain or lost to a failed spawn, or is still at the door; each request was answered, abandoned with its connection, or is in hand |
| `Drain.ConnectionIsServed` | crates/acetone-cli/src/serve.rs:309-395 | With the flag clear an accepted connection gets a handler exactly when a permit is free, and otherwise leaves everything as it was |
| `Drain.RequestIsServed` | crates/acetone-cli/src/serve.rs:516-523 | A request that finds a query permit free is answered and the permit comes back |
| `Drain.LastPoll` | crates/acetone-cli/src/serve.rs:396-424 | A poll ends the drain early exactly when no handler is live, with every permit back |
| `Drain.DrainCompletes` | crates/acetone-cli/src/serve.rs:309-424 | Every run that has not exited can be continued to the early exit, with the requests in hand answered and none abandoned |
| `Expected.Compare` | tck/src/expected.rs:526-567 | The verdict is a match exactly when the columns and counts agree and the rows match pairwise or greedily; on loop-free actual rows, exactly when the rows have equal forms in order or as multisets |
| `Expected.MatchExactly` | tck/src/expected.rs:443-524 | A positional expected and a loop-free actual value match exactly when their normal forms are equal: labels a set, entity ids dropped, NaNs and zeros identified, path steps reduced to their direction |
| `Expected.KindsExactly` | tck/src/expected.rs:443-468 | Values of different kinds never match, integer and float included; scalars match exactly when equal |
| `Expected.GreedyExactly` | tck/src/expected.rs:540-576 | On loop-free actual rows greedy consumption succeeds exactly when both sides are the same multiset of normal forms |
| `Expected.UnorderedPassIsPerfectMatching` | tck/src/expected.rs:526-576 | An unordered pass exhibits a bijection of matching rows, and without self-loops in the actual paths every bijection is found |
| `Expected.GreedyIsPerfect` | tck/src/expected.rs:540-567 | The greedy choices form a perfect matching |
| `Expected.PerfectIsGreedy` | tck/src/expected.rs:443-576 | By exchange, a perfect matching survives each greedy choice on loop-free rows |
| `Expected.Exchange` | tck/src/expected.rs:443-524 | If two expected values match one loop-free actual value, whatever else the second matches the first matches, through lists, maps, entities and paths |
| `Expected.BuildPath` | tck/src/expected.rs:251-314 | An expected path holds the cell's own nodes and relationships under positional ids, each relationship pointing as its notation says; otherwise the first unoriented step gives the error |
| `Expected.BuiltIsPositional` | tck/src/expected.rs:251-314 | A built path is positional, and so is the whole value when its parts are |
| `Expected.SelfLoopFalseFailure` | tck/src/expected.rs:490-524 | Two rows with a perfect matching that the greedy comparison misses because of a self-loop |
| `Suggest.ComputeDistance` | crates/acetone-cypher/src/suggest.rs:17-48 | Three rolling rows compute the full-matrix distance of the case-folded strings |
| `Suggest.FillRow` | crates/acetone-cypher/src/suggest.rs:31-43 | One pass fills a row of the matrix from the two before it |
| `Suggest.LoweredConcat` | crates/acetone-cypher/src/suggest.rs:18-20 | Case folding works character by character |
| `Suggest.OsaIsLeastCost` | crates/acetone-cypher/src/suggest.rs:10-48 | The matrix entry is the least cost over all edit scripts of insert, delete, substitute and adjacent transpose |
| `Suggest.DistanceIsSemimetric` | crates/acetone-cypher/src/suggest.rs:17-48 | Symmetric, and zero exactly for strings that fold alike |
| `Suggest.Nearest` | crates/acetone-cypher/src/suggest.rs:57-74 | The candidate of least distance, the first in byte order among equals, if that distance is one edit or at most a third of the target's length; none exactly when no candidate is that close |
| `Suggest.NearestUnique` | crates/acetone-cypher/src/suggest.rs:50-74 | The answer depends only on the set of candidates |
| `Batch.DedupOps` | benches/src/lib.rs:1062-1072 | Strictly increasing keys, and the same effect as the batch in order on every map |
| `Batch.LastOpDecides` | benches/src/lib.rs:1062-1072 | After a batch each key holds what its last operation says |
| `Batch.NaiveScanDiff` | benches/src/lib.rs:1076-1101 | Exactly the keys that differ, once each and with the right kind |

## Left out

- Expression forms outside the modelled fragment (function calls, CASE, maps, slices, label predicates, quantifiers, comprehensions and patterns) end in one error at the branch that commits to them.
- Clause-level parsing, source spans, error messages and the lexer's character-level work; tokens carry their text as bytes.
- `Query::depth` over clauses and `pattern_size`: the worklists are modelled over expressions.
- Persist.PersistChanges: says nothing about what is staged when it fails, because atomic saving belongs to the transaction's owner.
- Which of several unstorable properties is reported first, and the texts of errors.
- Uniqueness.SuccessKeepsUnique: leaves null values out, since an index is null-blind while the scan compares nulls.
- Dangling relationships: the executor, not the replay, keeps endpoints in place.
- Prolly trees, CBOR and key byte layouts, index maintenance and the type re-check at save time: maps and injective encodings stand for them.
- `merge_node_record` and `merge_edge_record`, which pair the two merges.
- Sockets, framing, timeouts, file permissions and a second SIGTERM, which ends the process at once.
- Machine-word overflow of sizes and counters other than the saturating chain sum.
- The cell parser's scalar and string notation, and the command line, rendering and benchmark timing.
