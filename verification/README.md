# Verified core of a SQL analytics server

Models and proofs for the parts of the server whose correctness does not show in any one function: the
privilege graph of users and roles, the re-entrant catalog locks, the expression rewrites of the query
analyzer, decimal arithmetic and its typing, the rollback of ALTER COLUMN, and the splitting of URLs.
`dafny verify dfyconfig.toml` checks everything.

## What is modelled

**Grants (`GrantGraph`, `GrantOps`, `GrantEffects`, `Worklist`, `Grantees`).** Users and roles are objects linked both ways. Each
holds its direct privileges and a cache of effective ones that every operation edits in place and then pushes down
the links, depth first, revisiting shared descendants. `GrantGraph` says what the caches ought to hold: key by key
the union of the direct privileges at and above the grantee. `GrantOps` says what each operation does to the graph and
`GrantEffects`, bit by bit, what it changes in the grants and in the caches.
`Grantees.Grantee` is the class with the operations themselves. The main result is `Grantees.RunAll`: after any
sequence of operations every cache is exact. A privilege word is the set of its one bits, so `|=` and `&= ~` are union
and difference.

**Locks (`LockProtocol`, `LockSharing`).** Any number of threads and catalogs, one shared-memory access per step: test the flags,
acquire, set the flag, clear the flag, release. Programs keep three rules: guards go last in first out, no
write lock is asked for on top of a mere read lock, and a thread uses the system catalog before at most one catalog.
The main results hold of every state of every run: `RunIsSafe`, `DeadlockFree`, `RunsComplete` and `KeptOutIff`. Two lemmas
show that the rules are needed.

**Expressions (`Expressions`, `Forms`, `Meaning`, `FreeTerms`, `Rewrite`, `RewriteShape`, `FindExpr`, `Predicates`).** The scalar fragment of
the expression tree with an evaluator in SQL's three-valued logic. The operators the analyzer does not look into may
mean anything. Rewriting for a child plan and rewriting HAVING over an aggregate plan are proved to preserve the value
and, node by node, everything that is not looked up;
splitting a WHERE condition is proved to conserve its conjuncts and its meaning. `Meaning.Agree` is what the analyzer's
equality would have to be for a look-up by equality to be right, and `FreeTerms` shows that it could not be weaker.

**Decimals (`Decimal`, `DecimalTypes`, `Precision`, `DecimalKinds`).** 64-bit casts between integers and decimals against round half
away from zero, the types that the analyzer gives to sums, differences and products, and the common type of a list.

**Smaller cores (`AlterColumnRecovery`, `Url`).** The rollback of a partly applied ALTER COLUMN on a catalog with an
index by id and one by name, and the ten groups of the regular expression of Appendix B of RFC 3986.

## What the proofs brought to light

- Copying sets "not null" on the type of a constant that is not null, so a copy equals its original exactly when
  every such constant had that type already; a constant that was cast to a nullable type has not
  (`Expressions.CopyEqualIff`).
- Columns are matched by key alone, so a self-join reads the wrong side; exactly when, is
  `Rewrite.ColumnReadsBackIff`, and where positions hold the base columns they are named after,
  `Rewrite.ColumnReadsWhereTracedIff`.
- Equality ignores the target of a cast and the second argument of an aggregate, so HAVING may read another
  aggregate (`Rewrite.CastsAreTakenForEachOther`, `Rewrite.SecondArgumentsAreTakenForEachOther`); exactly when it reads
  the right one, is `Rewrite.LookUpReadsBackIff`.
- The search for parts of an expression does not look into the second argument of an aggregate, so a match there is
  missed; exactly when an empty answer is right, is `FindExpr.EmptyAnswerIsRightIff`.
- A bare constant conjunct is dropped, so WHERE FALSE passes every row; exactly when the split is faithful, is
  `Predicates.FilterPreservedIff`.
- A column inside an IN list or a second aggregate argument is not counted, so a join predicate may be listed as a
  scan (`Predicates.InListColumnIsMissed`); exactly when a predicate is in the right list, is
  `Predicates.ListedWhereItBelongsIff`.
- The precision of the common type of a list depends on its order. For two types the causes are DECIMAL combined with
  INT, which ignores the precision of the decimal, and with TINYINT, which is allowed 5 digits in one order and 3 in
  the other (`Precision.PairOrderFreeIff`). In longer lists INT and BIGINT forget precisions found before, and decimals
  of different scales matter beside integers or in both kinds. Exactly when order does not matter, is
  `Precision.PrecisionIgnoresOrderIff` for integers with decimals that are DECIMALs or of one scale, and
  `DecimalKinds.KindsIgnoreOrderIff` for NUMERICs and DECIMALs of any scales.
- Two decimals of one kind but different scales get a sum type with too few digits; exactly when, is
  `DecimalTypes.SumFitsIff`.
- Two casts that both round need not agree with one; exactly when, is `Decimal.RoundingTwiceIff`.
- Rollback goes past the end of its list exactly when some recorded addition had not been made, which happens when the
  change stops early (`AlterColumnRecovery.Rollback`, `AlterColumnRecovery.CoversExactly`).
- The widest wildcard, over database id -1, never decides a privilege check, because no key with that id can be
  granted (`GrantOps.WidestWildcardNeverAnswers`).
- In the URL expression a backslash inside brackets stands for itself, so it ends a scheme and an authority, and the
  dot of the fragment does not take a NUL character (`Url.MalformedIff`).

## Model

| member | source | states |
|---|---|---|
| GrantGraph.LinkShrinks | Catalog/Grantee.cpp:425-430 | In an acyclic graph a granted role has strictly fewer nodes above it and a grantee strictly fewer below it, which is why pushing privileges down ends. |
| GrantGraph.UpToDateIffExact | Catalog/Grantee.cpp:288-314 | Every cache agrees with its direct privileges and the caches of its roles if and only if every cache is the union over everything reachable upwards, without empty entries. |
| GrantGraph.ExactIsUnique | Catalog/Grantee.cpp:288-314 | The graph determines its caches. |
| GrantOps.EdgeAcyclicIff | Catalog/Grantee.cpp:330-348 | Granting r to x keeps the graph acyclic if and only if x is not reachable upwards from r. |
| GrantOps.WithoutEdgeWellFormed | Catalog/Grantee.cpp:181-185 | Revoking a role keeps links symmetric and the graph acyclic. |
| GrantOps.WithoutNodeWellFormed | Catalog/Grantee.cpp:382-389 | So does destroying a grantee. |
| GrantOps.PullMends | Catalog/Grantee.cpp:288-314 | Recomputing one node mends it and puts at most its grantees out of date. |
| GrantOps.UnheldNodeLeavesExact | Catalog/Grantee.cpp:28-35 | A grantee that nobody holds any more can go without spoiling another cache. |
| GrantOps.NewNodeJoins | Catalog/Grantee.cpp:26 | A new grantee without links and privileges keeps graph and caches in order. |
| GrantOps.ApplyKeepsWellFormed | Catalog/Grantee.cpp:105-185 | Every single operation, accepted or refused, keeps the graph acyclic and its links symmetric. |
| GrantOps.RunKeepsWellFormed | Catalog/Grantee.cpp:163-185 | So does every sequence of operations. |
| GrantOps.CheckPrivileges | Catalog/Grantee.cpp:241-273 | The chain of four look-ups answers yes if and only if some stored key equal to the one asked for, or a wildcard over it, has all requested bits. |
| GrantOps.CheckAnswersFromGrants | Catalog/Grantee.cpp:241-273 | With exact caches the answer is a statement about the grants alone: at one covering key every bit asked for was granted at or above the grantee. |
| GrantOps.GrantsAndRevokesAreMonotone | Catalog/Grantee.cpp:241-273 | No grant turns any grantee's yes into a no and no revoke a no into a yes, at any key, through all wildcards. |
| GrantOps.GrantRoleThenRevoke | Catalog/Grantee.cpp:163-185 | Granting a role and revoking it restores the graph and every cache in it. |
| GrantOps.OnlyBelowChanges | Catalog/Grantee.cpp:425-430 | An operation at x changes no effective map except at x and below it. |
| GrantOps.RevokeAllOnDatabaseClears | Catalog/Grantee.cpp:316-328 | Nothing at or below x keeps a direct privilege on the database, a bit of it is effective anywhere if and only if it was granted at or above and outside that subgraph, and other databases are unchanged everywhere. |
| GrantOps.WidestWildcardNeverAnswers | Catalog/Grantee.cpp:265-271 | After any run no cache has a key with database id -1. |
| GrantEffects.GrantAddsDirect | Catalog/Grantee.cpp:105-119 | After a grant a bit is direct somewhere if and only if it was before or it is one of those granted, at that key of that grantee; no link changes. |
| GrantEffects.GrantAddsEffective | Catalog/Grantee.cpp:105-119 | And effective somewhere if and only if it was before or it is one of those granted, at that key, at or below the grantee. |
| GrantEffects.GrantIsAnswered | Catalog/Grantee.cpp:241-273 | So everyone at or below the grantee is then told yes for these bits at this key. |
| GrantEffects.RevokeTakesDirect | Catalog/Grantee.cpp:136-161 | After a revoke a bit is direct somewhere if and only if it was before and is not one of those revoked at that key of that grantee; an entry left without a bit is gone. |
| GrantEffects.RevokeTakesEffective | Catalog/Grantee.cpp:136-161 | A revoked bit stays effective exactly where another grantee at or above was granted it; all other bits stay. |
| GrantEffects.GrantThenRevoke | Catalog/Grantee.cpp:105-161 | Granting bits that were not there and revoking them restores every cache, and the graph itself unless an empty entry was there. |
| GrantEffects.RoleGivesEffective | Catalog/Grantee.cpp:163-179 | Granting a role gives those at and below the grantee exactly what the role has. |
| GrantEffects.RoleTakesEffective | Catalog/Grantee.cpp:181-185 | Before a role was revoked those at and below had exactly what they have after it and what the role has. |
| GrantEffects.DestroyTakesLinks | Catalog/Grantee.cpp:382-389 | Destroying a grantee removes it and its links; everything else about the others stays. |
| Worklist.PopPushShrinks | Catalog/Grantee.cpp:333-347 | Replacing the top of the stack by its neighbours lowers the total size of the trees still to be unfolded, so walks without a visited set end on every acyclic graph. |
| Worklist.SearchStep | Catalog/Grantee.cpp:61-71 | One turn of the search loses no way to the goal and makes the stack lighter. |
| Worklist.CollectStep | Catalog/Grantee.cpp:41-51 | One turn of the collection misses no role and makes the stack lighter. |
| Worklist.CollectEnds | Catalog/Grantee.cpp:37-53 | When the stack is empty exactly the roles strictly above have been collected. |
| Grantees.Grantee.constructor | Catalog/Grantee.cpp:26 | A new grantee has no links and no privileges. |
| Grantees.Grantee.ResetEffective | Catalog/Grantee.cpp:289-292 | Every cached entry is emptied, none is removed. |
| Grantees.Grantee.LoadDirect | Catalog/Grantee.cpp:293-298 | Direct bits are added at the keys the cache has. |
| Grantees.Grantee.LoadRole | Catalog/Grantee.cpp:275-285 | All cached bits of a role are added, at new keys too. |
| Grantees.Grantee.EraseEmpty | Catalog/Grantee.cpp:305-313 | No empty entry is left and no bit is lost. |
| Grantees.Grantee.Pull | Catalog/Grantee.cpp:288-314 | The four loops leave exactly the direct bits and those cached at the granted roles, and no empty entry. |
| Grantees.Grantee.UpdatePrivileges | Catalog/Grantee.cpp:425-430 | Terminates on every acyclic graph; out of date afterwards are only nodes that were so before, and neither this node nor its grantees, although shared descendants are revisited and read stale parents midway. |
| Grantees.Grantee.CheckCycles | Catalog/Grantee.cpp:330-348 | The search refuses exactly when the new role is this node or reaches it upwards. |
| Grantees.Grantee.HasRole | Catalog/Grantee.cpp:55-74 | Decides direct membership, or reflexive reachability. |
| Grantees.Grantee.GetRoles | Catalog/Grantee.cpp:37-53 | Returns the names of exactly the direct roles, or of exactly the roles strictly reachable. |
| Grantees.Grantee.GrantPrivileges | Catalog/Grantee.cpp:105-119 | The direct bits at the key of this node gain the bits, those at other keys and nodes stay, and every cache is exact again. |
| Grantees.Grantee.RevokePrivileges | Catalog/Grantee.cpp:136-161 | Refused exactly when nothing is granted directly at the key; otherwise exactly these bits are gone at exactly this key, every cache is exact, and what is left is returned. |
| Grantees.Grantee.AddGrantee | Catalog/Grantee.cpp:391-398 | Adds a grantee, failing exactly when it is there. |
| Grantees.Grantee.RemoveGrantee | Catalog/Grantee.cpp:400-407 | Removes a grantee, failing exactly when it is not there. |
| Grantees.Grantee.GrantRole | Catalog/Grantee.cpp:163-179 | Refused, changing nothing, exactly when the role is held already or the edge would close a cycle; otherwise the edge is there and every cache is exact. |
| Grantees.Grantee.RevokeRole | Catalog/Grantee.cpp:181-185 | Fails, changing nothing, exactly when the role is not held; otherwise the edge is gone and every cache is exact. |
| Grantees.Grantee.RevokeAllHere | Catalog/Grantee.cpp:316-328 | Both maps of one node lose the database and every cache is exact again. |
| Grantees.Grantee.RevokeAllOnDatabase | Catalog/Grantee.cpp:417-422 | The database is wiped at exactly the nodes at and below this one, and every cache is exact. |
| Grantees.Grantee.RevokeFromGrantees | Catalog/Grantee.cpp:382-389 | The role is taken from all its grantees while they are removed from the set iterated over, and every cache is exact. |
| Grantees.Grantee.LeaveRoles | Catalog/Grantee.cpp:28-35 | The grantee is struck from the grantees of its roles and from nothing else. |
| Grantees.Grantee.Destroy | Catalog/Grantee.cpp:382-389 | Destruction is the removal of the node, and the caches of all that remain are exact. |
| Grantees.EraseDb | Catalog/Grantee.cpp:319-325 | Exactly the entries of one database are erased. |
| Grantees.Create | Catalog/Grantee.cpp:26 | A grantee may join at any time. |
| Grantees.Perform | Catalog/Grantee.cpp:105-185 | Each operation on the objects does to the graph what the operation on graphs does. |
| Grantees.RunAll | Catalog/Grantee.cpp:105-185 | After every sequence of grants, revokes, role grants and revokes, revoke-all-on-database and destructions, every live grantee's cache equals, key by key, the union of the direct privileges at and above it. |
| LockProtocol.InitialIsInv | Catalog/RWLocks.h:47-78 | The invariant holds before any lock is taken. |
| LockProtocol.BuiltFacts | Catalog/RWLocks.h:81-127 | Every catalog a thread has a guard for is locked by it, for reading or for writing but not both, and sqlite guards come with such a lock. |
| LockProtocol.StepLands | Catalog/RWLocks.h:136-168 | Each of the fifteen kinds of step leaves thread and catalog agreeing about who holds and announces what. |
| LockProtocol.StepKeepsMutex | Catalog/RWLocks.h:136-168 | No step breaks mutual exclusion or touches another thread's ownership. |
| LockProtocol.StepKeepsInv | Catalog/RWLocks.h:47-168 | Every step of every thread keeps the invariant. |
| LockProtocol.RunKeepsInv | Catalog/RWLocks.h:47-168 | So does every run. |
| LockProtocol.InvIsSafe | Catalog/RWLocks.h:47-168 | The invariant implies all four clauses of safety. |
| LockProtocol.RunIsSafe | Catalog/RWLocks.h:47-168 | In every state of every run: a writer excludes all other readers and writers of its catalog; the sqlite lock has one owner, who has the catalog locked too; every test of a thread of its own flags tells truly whether it has the lock already; exactly the outermost guards own their mutexes, and a guard being constructed or destroyed owns one only if it is outermost. |
| LockProtocol.WaitsUpwards | Catalog/RWLocks.h:28-38 | A thread waits only for a lock above all those it holds in the documented order. |
| LockProtocol.WhoBlocks | Catalog/RWLocks.h:136-150 | A blocked thread is kept out by a holder of the mutex, or by a waiting writer that can go on. |
| LockProtocol.SomeoneCanStep | Catalog/RWLocks.h:28-38 | From any unfinished thread the holders lead to one that can take a step. |
| LockProtocol.DeadlockFree | Catalog/RWLocks.h:28-38 | In every state of every run with an unfinished thread some thread can take a step, for any number of threads and with or without preference for writers. |
| LockProtocol.StepWorks | Catalog/RWLocks.h:47-168 | Every step uses up a bounded amount of work. |
| LockProtocol.RunsAreBounded | Catalog/RWLocks.h:47-168 | No run goes on for ever. |
| LockProtocol.RunsComplete | Catalog/RWLocks.h:28-38 | Every run can be carried on until all threads are finished. |
| LockProtocol.UpgradeNeverFinishes | Catalog/RWLocks.h:136-150 | In any state and for any continuation: a thread that has a read lock and is about to ask for the write lock of the same catalog never gets it and never finishes. |
| LockProtocol.SecondCatalogNeverLocked | Catalog/Catalog.h:957-958 | In any state: a thread that reads one catalog constructs a read guard on any other without taking a lock, whatever happens in between. |
| LockProtocol.UpgradeDeadlocks | Catalog/RWLocks.h:136-150 | A run from nothing locked that leads to such a thread. |
| LockSharing.KeptOutIff | Catalog/RWLocks.h:47-168 | In every state of every run: a thread that asks to read is kept out if and only if another one writes or, where writers go first, one asks to write; a thread that asks to write if and only if another one reads or writes; for sqlite if and only if another one holds it. |
| LockSharing.ReadersShare | Catalog/RWLocks.h:52 | Any number of threads that begin by reading a catalog can come to read it all at once. |
| Expressions.EqReflexive | Analyzer/Analyzer.cpp:2296-2403 | Equality is reflexive where plain columns have a range-table index and positional ones have none. |
| Expressions.EqSymmetric | Analyzer/Analyzer.cpp:2296-2403 | Equality is symmetric there. |
| Expressions.EqTransitive | Analyzer/Analyzer.cpp:2296-2403 | Equality is transitive there. |
| Forms.EqIff | Analyzer/Analyzer.cpp:2296-2403 | Two expressions are equal there if and only if they are identical but for result types, qualifiers, second aggregate arguments and the labels of positions. |
| Expressions.CopyEqualIff | Analyzer/Analyzer.cpp:67-114 | A deep copy equals its original if and only if every constant that is not null has a not-null type. |
| Expressions.CopyIdenticalIff | Analyzer/Analyzer.cpp:201-216 | It is the very same tree in exactly the same case. |
| Expressions.NullableConstantCopyDiffers | Analyzer/Analyzer.h:335-341 | A constant for which it does not. |
| Expressions.CopySameMeaning | Analyzer/Analyzer.cpp:67-114 | A deep copy has the value of its original on every row. |
| Forms.CopyKeepsTheRest | Analyzer/Analyzer.cpp:67-114 | A deep copy differs from its original at most in the nullability of constants. |
| Forms.CopyIsTight | Analyzer/Analyzer.cpp:67-114 | In a deep copy every constant that is not null has a not-null type. |
| Meaning.ReadsOnlyItsEntries | Analyzer/Analyzer.h:105-109 | Rows and groups that agree on the range-table entries of an expression's columns give it the same value. |
| Meaning.AgreeSameMeaning | Analyzer/Analyzer.cpp:2388-2394 | Expressions that are equal also in cast targets and second aggregate arguments have the same value, whatever the operators mean. |
| Meaning.TransparentEqAgrees | Analyzer/Analyzer.cpp:2296-2403 | Without casts and second arguments the analyzer's equality is such agreement. |
| FreeTerms.FreeSameIff | Analyzer/Analyzer.cpp:2388-2394 | Two expressions built from operators with open meaning always have the same value if and only if they agree. |
| FreeTerms.AggregatesSameIff | Analyzer/Analyzer.cpp:2618-2629 | So do two aggregates of such arguments. |
| FreeTerms.FixedOperatorsMayHide | Analyzer/Analyzer.cpp:2388-2394 | Beside OR TRUE a cast does not matter, so there agreement is not needed. |
| Rewrite.FindColumn | Analyzer/Analyzer.cpp:2011-2032 | The loop finds the first column with the key, unless another kind of entry ends the search. |
| Rewrite.FirstColumnFound | Analyzer/Analyzer.cpp:2034-2058 | It is found if and only if it is listed and nothing before it ends the search; no earlier entry has the key. |
| Rewrite.FindEqual | Analyzer/Analyzer.cpp:2151-2166 | The loop finds the first equal entry. |
| Rewrite.FirstEqualFound | Analyzer/Analyzer.cpp:2060-2072 | It is found if and only if there is one, and no earlier entry is equal. |
| Rewrite.ChildRewriteSucceedsIff | Analyzer/Analyzer.cpp:2211-2252 | The rewrite for a child plan succeeds if and only if every column it has to replace is found. |
| Rewrite.ChildRewriteOfColumnsSucceedsIff | Analyzer/Analyzer.cpp:2011-2032 | With a target list of columns only: if and only if every such column is in the list. |
| Rewrite.ChildRewriteSameMeaning | Analyzer/Analyzer.cpp:2211-2252 | The rewritten expression on the child's row has the value of the original on the base row, aggregates over the group included, if each column finds one of its range-table entry and the columns and positions in copied parts have the same value on both rows. Of positions in the target list only those that name a range-table entry matter, and these are taken to hold the base column they are named after. |
| Rewrite.SelfJoinReadsTheWrongSide | Analyzer/Analyzer.cpp:2022 | Without keys that name one range-table entry it need not. |
| Rewrite.ColumnReadsBackIff | Analyzer/Analyzer.cpp:2011-2058 | In both rewrites a column that is found reads back on every row if and only if what it finds is a plain column of its range-table entry. |
| Rewrite.ColumnReadsWhereTracedIff | Analyzer/Analyzer.cpp:2011-2058 | On the rows where positions that name a range-table entry hold the base column they are named after, no position being named after two: if and only if what it finds, column or position, is of its range-table entry. |
| Rewrite.AggRewriteLeavesNoAggregate | Analyzer/Analyzer.cpp:2254-2294 | No aggregate is left in a rewritten HAVING expression. |
| Rewrite.LookedUp | Analyzer/Analyzer.cpp:2151-2166 | The value at the position looked up is the value asked for, if the entry found agrees. |
| Rewrite.TransparentFindsItsLike | Analyzer/Analyzer.cpp:2060-2072 | A position without range-table entry always finds an entry that agrees, and so does an aggregate where none has casts or second arguments. |
| Rewrite.LookUpReadsBackIff | Analyzer/Analyzer.cpp:2151-2166 | In any target list: a position or an aggregate of arguments with open meaning reads back on every row and group if and only if the entry found agrees. |
| Rewrite.AggRewriteSameMeaning | Analyzer/Analyzer.cpp:2254-2294 | The rewritten HAVING expression on the aggregate plan's row has the value of the original on the group, if each look-up finds an entry that agrees. Positions in the target list that name a range-table entry are taken to hold the base column they are named after; the others may hold anything. |
| Rewrite.CastsAreTakenForEachOther | Analyzer/Analyzer.cpp:2388-2394 | In any target list: an aggregate of a cast that finds one differing at most in the target of the cast reads back if and only if the targets are the same. |
| Rewrite.CastsAreEqual | Analyzer/Analyzer.cpp:2388-2394 | For any two types there is a list in which one cast finds the other. |
| Rewrite.SecondArgumentsAreTakenForEachOther | Analyzer/Analyzer.cpp:2618-2629 | In any target list: an aggregate that finds one differing at most in a constant or absent second argument reads back if and only if these have the same value. |
| Rewrite.SecondArgumentsAreEqual | Analyzer/Analyzer.cpp:2618-2629 | For any two second arguments there is a list in which one aggregate finds the other. |
| RewriteShape.ChildRewriteKeepsNodes | Analyzer/Analyzer.cpp:2011-2032 | The rewrite for a child plan keeps every node with its type, operator, qualifier, field, DISTINCT and second argument; a column becomes the position of the first one listed under its key, with that one's type and range-table entry. |
| RewriteShape.AggRewriteKeepsNodes | Analyzer/Analyzer.cpp:2034-2072 | So does the rewrite of HAVING, where a position or an aggregate becomes the position of the first entry equal to it, with that one's type. |
| RewriteShape.ChildRewriteUndoneIff | Analyzer/Analyzer.cpp:2211-2252 | Putting back the entries for the positions undoes the rewrite for a child plan if and only if each column finds exactly itself, no position was there before and every constant that is not null has a not-null type. |
| RewriteShape.AggRewriteUndoneIff | Analyzer/Analyzer.cpp:2254-2294 | And it undoes the rewrite of HAVING if and only if everything looked up finds exactly itself and the constants are like that. |
| FindExpr.AddUnique | Analyzer/Analyzer.cpp:3347-3355 | Adds an expression unless the list holds an equal one. |
| FindExpr.Find | Analyzer/Analyzer.cpp:3357-3386 | The traversal adds the topmost matching parts, left to right. |
| FindExpr.FindArms | Analyzer/Analyzer.cpp:3525-3538 | So it does in the arms of a CASE, condition before result. |
| FindExpr.AddAllCollects | Analyzer/Analyzer.cpp:3347-3355 | Earlier entries stay, entries are pairwise unequal, every match is there or equal to one that is, and nothing else is. |
| FindExpr.TopmostMatches | Analyzer/Analyzer.cpp:3357-3386 | Everything found matches. |
| FindExpr.FoundInOrder | Analyzer/Analyzer.cpp:3357-3386 | What is found are exactly the matching parts with no matching part around them, in the order in which the parts are visited. |
| FindExpr.NothingFoundIff | Analyzer/Analyzer.cpp:3357-3386 | Nothing is found if and only if no part outside the second arguments of aggregates matches. |
| FindExpr.EmptyAnswerIsRightIff | Analyzer/Analyzer.cpp:3357-3386 | That nothing is found means that nothing matches anywhere, if and only if something is found or no second argument contains a match. |
| FindExpr.SecondArgumentIsNotSearched | Analyzer/Analyzer.cpp:3514-3523 | A match inside the second argument of an aggregate is missed. |
| FindExpr.AggRewriteSucceedsIff | Analyzer/Analyzer.cpp:2254-2294 | A HAVING expression is rewritten if and only if each of its topmost columns and aggregates is found in the target list. |
| FindExpr.GatheredListServes | Analyzer/Analyzer.cpp:2151-2166 | A target list gathered from the expression itself always serves to rewrite it. |
| Predicates.GroupPredicates | Analyzer/Analyzer.cpp:1639-1679 | Each list is extended by exactly the conjuncts that belong there, in order, and every conjunct but bare constants and columns that are not boolean is in one of them. |
| Predicates.DroppedIff | Analyzer/Analyzer.cpp:1639-1679 | A conjunct is in no list if and only if it is a constant or a column that is not boolean. |
| Predicates.ConjunctsAreWhole | Analyzer/Analyzer.cpp:1664-1668 | No conjunct is itself an AND. |
| Predicates.SplitConserves | Analyzer/Analyzer.cpp:1639-1679 | Every conjunct is in exactly one list or is dropped, as often as it occurs. |
| Predicates.GroupingMeans | Analyzer/Analyzer.cpp:1639-1679 | On every row the condition is the three-valued conjunction of the lists and of what was dropped. |
| Predicates.GroupingPreservesFilter | Analyzer/Analyzer.h:98-104 | Without bare constants and columns that are not boolean the lists mean exactly the condition. |
| Predicates.WhereFalsePassesEverything | Analyzer/Analyzer.h:102-104 | For the constant FALSE all lists are empty. |
| Predicates.FilterPreservedIff | Analyzer/Analyzer.h:102-104 | Without bare columns that are not boolean, the lists pass the same rows if and only if all bare constants are TRUE or the lists pass no row. |
| Predicates.CollectedOrUnvisited | Analyzer/Analyzer.h:480-483 | Every entry of an expression's columns is collected or named in an IN list or second aggregate argument. |
| Predicates.UnvisitedPartsDoNotCount | Analyzer/Analyzer.h:654-656 | Whatever an IN list or a second aggregate argument holds, the same entries are collected. |
| Predicates.ListedWhereItBelongsIff | Analyzer/Analyzer.cpp:1660-1679 | A predicate that is neither a constant nor a column that is not boolean is in the list for its number of entries if and only if more than one is collected or all named in parts not visited are collected too. |
| Predicates.PlacedByWhatItReads | Analyzer/Analyzer.cpp:1660-1679 | Where no other entry is named in parts not visited, a constant predicate does not depend on the row and a scan predicate only on the one table it is pushed down to. |
| Predicates.InListColumnIsMissed | Analyzer/Analyzer.cpp:1711-1723 | With a column in an IN list a scan predicate may depend on a second table. |
| Decimal.RoundIsNearest | Analyzer/Analyzer.cpp:887-896 | The rounding specified is a nearest integer, of two the one further from zero. |
| Decimal.NearestIsUnique | Analyzer/Analyzer.cpp:887-896 | There is only one such integer. |
| Decimal.DivideAndCarry | Analyzer/Analyzer.cpp:887-896 | Unsigned division, carry and negation give that rounding for scales 1 to 19, and nothing wraps around. |
| Decimal.RoundDecimal | Analyzer/Analyzer.cpp:873-897 | At every scale the result is the exact rounding, and it fails exactly when that does not fit the target width. |
| Decimal.ScaleUp | Analyzer/Analyzer.cpp:911-937 | Succeeds with the exact product if and only if it fits in 64 bits, beyond the table of powers too. |
| Decimal.ConvertScale | Shared/Datum.cpp:81-108 | Between scales: the exact rounding downwards, the exact product upwards if and only if it fits. |
| Decimal.Constant.CastNumber | Analyzer/Analyzer.cpp:941-1214 | Between integer and decimal types the constant becomes the nearest value of the new type, halves away from zero, if and only if it fits; a failed cast changes nothing. |
| Decimal.RescaledIsNearest | Analyzer/Analyzer.cpp:941-1214 | At any two scales the unscaled value becomes the integer nearest to its exact multiple. |
| Decimal.RoundIsMonotone | Analyzer/Analyzer.cpp:873-897 | Rounding keeps the order of values. |
| Decimal.CastIsMonotone | Analyzer/Analyzer.cpp:941-1214 | So does every cast. |
| Decimal.WideningFirstIsHarmless | Analyzer/Analyzer.cpp:941-1214 | A cast that loses nothing may come before any cast without changing the outcome. |
| Decimal.ScaleRoundTrip | Analyzer/Analyzer.cpp:911-937 | A value that was scaled up comes back unchanged. |
| Decimal.IntegerSurvivesDecimal | Analyzer/Analyzer.cpp:911-937 | An integer cast to a decimal and back is itself whenever the first cast succeeds. |
| Decimal.RoundingTwiceDiffers | Analyzer/Analyzer.cpp:1139-1143 | Two roundings of 0.45 give 1, one gives 0. |
| Decimal.RoundingTwiceIff | Analyzer/Analyzer.cpp:1139-1143 | Two roundings agree with one if and only if the digits dropped do not lie just below a half. |
| DecimalTypes.CommonIsJoin | Analyzer/Analyzer.cpp:519-766 | But for the precision the common type of two number types is their join in an order of kinds, with the larger scale and joint nullability. |
| DecimalTypes.JoinCommutes | Analyzer/Analyzer.cpp:519-766 | The join commutes and is idempotent. |
| DecimalTypes.JoinAssociates | Analyzer/Analyzer.cpp:519-766 | The join is associative. |
| DecimalTypes.FoldIgnoresOrder | Analyzer/Analyzer.cpp:519-766 | The kind, scale and nullability of the common type of a list do not depend on its order. |
| Precision.PairOrderFreeIff | Analyzer/Analyzer.cpp:519-766 | The order of any two number types does not matter to the precision if and only if they are not an integer and a decimal, or balance. |
| Precision.PrecisionDependsOnOrder | Analyzer/Analyzer.cpp:725-733 | INT and DECIMAL do not. |
| Precision.KindsMakeOrderMatter | Analyzer/Analyzer.cpp:745-754 | Three decimals of different scales and both kinds for which the order matters. |
| Precision.ScalesMakeOrderMatter | Analyzer/Analyzer.cpp:597-604 | An integer and two decimals of different scales for which it does. |
| Precision.PrecisionIgnoresOrderIff | Analyzer/Analyzer.cpp:519-766 | For every list of integers and decimals, the decimals being DECIMALs of any scales or of one scale: all orders give the same precision if and only if nothing exceeds what INT or BIGINT set and some decimal makes up for an INT at a smaller scale, or, without INT and BIGINT, there are no small integers, or a decimal has all digits they may call for, or SMALLINT is there and one scale only. |
| Precision.PrecisionIgnoresOrder | Analyzer/Analyzer.cpp:519-766 | For lists with a floating type, lists without decimals, and lists consisting of decimals of one kind, of any scales, order never matters. |
| DecimalKinds.KindsIgnoreOrderIff | Analyzer/Analyzer.cpp:745-754 | For every list of NUMERICs and DECIMALs of any scales: all orders give the same precision if and only if one of the types already has the most that any order makes, or all DECIMALs have the most digits before the point, or one NUMERIC is the greatest of its kind in all respects and each DECIMAL has the greatest scale or just makes up for it. |
| DecimalKinds.FoldBounded | Analyzer/Analyzer.cpp:745-754 | Whatever the order, the precision is between the greatest in the list and a bound made of the greatest scales and digits before the point of each kind. |
| DecimalTypes.AnalyzedKinds | Analyzer/Analyzer.cpp:445-458 | Operands and result get the joint kind, operands keep their nullability, and the result is nullable if one of them is. |
| DecimalTypes.AnalyzedScales | Analyzer/Analyzer.cpp:420-458 | Operands of a sum get the larger scale, operands of a product keep theirs and the result gets their sum. |
| DecimalTypes.CommonPrecision | Analyzer/Analyzer.cpp:519-766 | The precision of the common type of any two number types, integers counting as 3, 5, 10 or all digits before the point. |
| DecimalTypes.AnalyzedPrecisions | Analyzer/Analyzer.cpp:430-455 | Operands and result get one precision: with decimals one digit more than the common type for sums, at least the digits of both for products. |
| DecimalTypes.ArithmeticIsExact | Analyzer/Analyzer.cpp:420-458 | Integer arithmetic on the unscaled operands, read at the scale of the result type, is the exact rational result of +, - and *. |
| DecimalTypes.ProductHasDigits | Analyzer/Analyzer.cpp:430-439 | The product of two decimals has the digits of its type. |
| DecimalTypes.SumsHaveDigitsIff | Analyzer/Analyzer.cpp:440-443 | Exactly when all sums of numbers with given digits and shift have one digit more than a bound. |
| DecimalTypes.SumFitSwaps | Analyzer/Analyzer.cpp:440-443 | Which operand comes first makes no difference to the fit. |
| DecimalTypes.SumFitsIff | Analyzer/Analyzer.cpp:440-443 | Sums and differences of NUMERIC and DECIMAL always have the digits of their type; those of two of one kind if and only if the one with fewer places leaves room. |
| DecimalTypes.SumOfDecimalsMayNotFit | Analyzer/Analyzer.cpp:440-443 | Two types for which they have not. |
| AlterColumnRecovery.Catalog.ListColumns | Catalog/Catalog.cpp:2300-2328 | Lists exactly the columns that are neither system nor virtual columns. |
| AlterColumnRecovery.Catalog.DropColumn | Catalog/Catalog.cpp:2823-2845 | Removes the column from both indexes, which stay inverse. |
| AlterColumnRecovery.Catalog.RenameColumn | Catalog/Catalog.cpp:4900-4941 | Renames in both indexes, overwriting an entry under the new name; they agree afterwards if and only if the name was free or its own. |
| AlterColumnRecovery.Catalog.AlterColumnType | Catalog/Catalog.cpp:2585-2641 | Replaces the descriptor under id and name. |
| AlterColumnRecovery.UpperSameIff | Catalog/Catalog.cpp:4929-4934 | Names are the same in upper case if and only if they are letter by letter, up to the case of a to z. |
| AlterColumnRecovery.Find | Catalog/AlterColumnRecovery.cpp:37-40 | Finds the column with the id, or the end of the list exactly when there is none. |
| AlterColumnRecovery.DropAdded | Catalog/AlterColumnRecovery.cpp:35-48 | Succeeds if and only if all recorded additions are listed columns, and then exactly these are dropped; otherwise those before the first that is not. |
| AlterColumnRecovery.OldNameIsFree | Catalog/AlterColumnRecovery.cpp:50-63 | Putting back an old name clashes with no other column at any time, if temporary names are none of the old ones. |
| AlterColumnRecovery.RenameBack | Catalog/AlterColumnRecovery.cpp:50-63 | Every recorded name is put back, whether or not it had been changed. |
| AlterColumnRecovery.UndoAltered | Catalog/AlterColumnRecovery.cpp:89-98 | Every recorded type is put back and the table is as before. |
| AlterColumnRecovery.Rollback | Catalog/AlterColumnRecovery.cpp:31-99 | Whatever had taken effect: succeeds if and only if all recorded additions are listed columns, and then the table has exactly its old columns, names and types; otherwise the additions before the first missing one are gone. Both indexes agree after every single change made on the way. |
| AlterColumnRecovery.CoversExactly | Catalog/DdlCommandExecutor.cpp:2952-2977 | A change that stopped after any renames, changes of type and some additions has left the columns as rollback expects them, and rollback succeeds there if and only if all additions had been made. If no name was given to an added column before its owner had been renamed, and new names differ, the two indexes of these columns agree. |
| Url.ParseUrl | Archive/Archive.h:164-191 | Fails exactly when a NUL character is behind a number sign, leaving the map alone; otherwise the ten groups are stored and other entries stay. Groups 1, 3, 5, 6 and 8 concatenate to the input; 2, 4, 7 and 9 are 1, 3, 6 and 8 without their marks, and none holds a character that would end it. |
| Url.CopyOut | Archive/Archive.h:188-190 | The loop stores all groups and touches no other entry. |
| Url.MatchesIff | Archive/Archive.h:182-184 | What the expression matches, spelled out in characters. |
| Url.SplitLossless | Archive/Archive.h:180-184 | Nothing of the input is lost. |
| Url.SplitIsWellFormed | Archive/Archive.h:180-184 | The split is a match of the expression, with parts that say where they end. |
| Url.SplitIsPreferred | Archive/Archive.h:180-184 | Every other match gives less to the scheme, or the same scheme and less to the authority. |
| Url.MalformedIff | Archive/Archive.h:182-184 | Nothing matches if and only if there is a NUL character from the first number sign on. |
| Url.WellFormedIsSplit | Archive/Archive.h:180-184 | Well-formed parts recomposed split into themselves. |
| Url.RecompositionSplitsBackIff | Archive/Archive.h:180-184 | Recomposed parts split into themselves if and only if they are well formed. |
| Url.GroupsDetermineParts | Archive/Archive.h:166-178 | The groups tell an absent component from an empty one. |

## Left out

- Names, owners and printing of database objects, and look-ups by name in the system catalog: they play no part in the privileges.
- hasAnyPrivileges and hasAnyPrivilegesOnDb: the same look-ups with an easier test.
- The distributed mutexes of multi-instance mode: they replace the local ones one for one.
- Fairness among threads: progress means that some thread can go on, not that each one does.
- Expression nodes for geometry, windows, arrays, strings, LIKE, regular expressions and machine learning: each repeats a node that is modelled.
- rewrite_with_targetlist: it copies an entry where the two rewrites modelled put a position.
- The types, the text and the floating-point values of constants beyond equality: the evaluator takes values as given.
- Rewrite.LookUpReadsBackIff: is an equivalence for arguments built from operators with open meaning; with AND, OR, NOT, IS NULL, IN and CASE, which can hide a difference, agreement is only shown to be enough.
- Predicates.GroupPredicates: assumes that no conjunct is an aggregate without an argument, for which the original has no defined behaviour.
- Casts from and to floating-point, boolean and timestamp constants: they need IEEE 754 reasoning or are a single multiplication.
- Decimal.RoundDecimal: assumes a value above the least 64-bit integer where the original takes its absolute value, which is undefined for that one.
- Division and modulo in the typing of arithmetic, and time intervals: their results are not exact or not numbers.
- DecimalTypes.SumFitsIff: says nothing of an integer operand, whose width is not a number of digits.
- Dictionaries, chunks, epochs and the recovery file of ALTER COLUMN: data and file handling.
- AlterColumnRecovery.Catalog.RenameColumn: does not rename the physical columns that follow a geometry column.
- AlterColumnRecovery.Rollback: reports failure where the original goes past the end of its list, and says nothing of what happens after that.
- Precision.PrecisionIgnoresOrderIff: leaves open lists of integers beside NUMERICs and decimals of a different scale; without the integers DecimalKinds.KindsIgnoreOrderIff gives the exact condition.
- The regular-expression engine: the match it prefers is specified by the lengths of the groups.
