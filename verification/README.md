# Verification of the ormize core

A Dafny 4.11 model of the parts of the repository that keep state or give
meaning to a filter, with proofs of what they promise. Check it with

    dafny verify dfyconfig.toml

## What is modelled

**The Valkey storage engine.** `Redis` is the store: strings with expiries,
sorted sets and sets, one command at a time, with keys as a datatype of six
families. `Overlay` and `Executors` are the execution layer: a client object,
the executor that writes at once, and the transaction object with its overlay
tables and command log. `Indexes`, `Expiry`, `Query`, `Adapter` and `Reset` are
the adapter's own loops, written once over either executor. `Engine` states the
invariant that ties the id list, index sets, unique keys and membership sets to
the stored rows, and what each write does to it; `Runs` carries it over every
run of several models. `Resolution` defines when a filter is answered from the
indexes and proves the answer exact. `Calls` is one call as a step on a model's
rows, and `Refinement` proves that a committed transaction over several models
equals the direct run. `Keyspace` is how keys are printed. `EngineLinks` is the
engine's relationship accessors on top of these operations.

**The shared cache.** `Cache` is the four scripts as methods of a store object:
accounts, eviction loop, generations. `Coherence` interleaves readers, writers,
clears and time over it and proves when hits are fresh.

**Scopes.** `Filters` gives filters their meaning on a row. `Normalise` and
`Scopes` are the scope algebra and its lowering to query parameters,
`Permissions` compiles rules to filters, `Creates` says what that means for a
row being created, and `Includes` rewrites an eager-include plan and compares it
with the repository's own evaluator run on the visible rows. `ScopeMemo` keeps one decision per principal, model and
operation for a request.

**Coordination, links and codecs.** `Coordinator` finalises a unit of work over
several adapters, and `Handles` lets its calls for a transaction overlap. `Links`
specifies the relationship accessors as operations on a relation and models the
ones that work across adapters. `Codecs` prints and reads ids and cursors.

Where the code departs from the ideal claim, the lemmas whose names end in `Iff`
give the exact condition. These lemmas are inputs at which it departs, with the
condition beside each: `DeletedSetStillRead` (`DeletedSetReadIff`),
`ClashLosesClause` (`NormaliseWidensIff`), `CreateAnyDropsForced` and
`CreateAllKeepsLast` (`CreateExactIff`), `UnsaidLosesParents`
(`IncludeAgreesIff`), `HiddenEdgeShows` (`VisibleRelatedIff`), `OverlapLoses`
(`LostIff`). For the cache, `HitsAreFresh` holds when it is cleared only while no
tagged read is under way, and `ClearUncovers` leads from any coherent state with
one under way to a stale hit.

One comment differs from its code and the code is followed: `isEmpty` of the
coordinator is documented as true once a transaction is open
(`packages/ormize/src/transaction.ts:56-59`) and returns the opposite.

Two hypotheses recur. `Faithful`, of a filter over some rows, says that no indexed
condition is `eq` and `in` alone with the value outside the list, and that no row
holds another value printing like one looked up. `KeysKept`, of a list of calls,
says that creates do not reuse an id deleted earlier in the list nor shrink the
listing of a row they overwrite, and that patches keep the keys of their rows.

Definitions that both sides of a theorem share are pinned by themselves: lemmas whose
names end in `Means`, `Shows`, `Reads` or `Names` say what such a definition amounts
to in terms of rows, fields, keys or text.

Several predicates are folded: `forall n {:trigger Shown(n)} :: Shown(n) ==> P`
is `P`, kept closed for the solver until `Shown` is mentioned.

## Model

| member | source | states |
|---|---|---|
| `Engine.CreateKeepsInv` | packages/ormize-adapter-valkey/src/index.ts:736-753 | a create under a free id, with no unique value taken, keeps the whole store invariant (rows, id list, index sets, unique keys, membership sets) |
| `Engine.CreateKeepsInvIff` | packages/ormize-adapter-valkey/src/index.ts:736-753 | whether or not its id is free, a create with no unique value taken keeps the invariant exactly when the id is not empty and a row stored under it is listed nowhere the new one is not |
| `Engine.CreateOverKeepsInvIff` | packages/ormize-adapter-valkey/src/index.ts:741-750 | the id of a create is not checked; over a stored row the invariant survives exactly when the new row is listed everywhere the old one was |
| `Engine.PatchKeepsInvIff` | packages/ormize-adapter-valkey/src/index.ts:497-513 | a patch of any fields, keeping the expiry and taking no unique value, keeps the invariant exactly when the row still prints the key it is stored under |
| `Engine.PatchKeepsTied` | packages/ormize-adapter-valkey/src/index.ts:497-513 | such a patch keeps every derived structure in step with the rows even where rows print other keys than their own, and changes only whether its own row does |
| `Engine.NewTtlKeepsInvIff` | packages/ormize-adapter-valkey/src/indexes.ts:101-107 | an update that changes the expiry keeps the invariant exactly when no unique key is wanted both before and after, since those keys are not refreshed |
| `Engine.DeleteKeepsInv` | packages/ormize-adapter-valkey/src/indexes.ts:59-72 | removing a row through its membership set keeps the invariant unless a live row has taken one of its unique keys over |
| `Engine.CollectKeepsInvIff` | packages/ormize-adapter-valkey/src/query.ts:128-133 | collecting an expired id keeps the invariant exactly when none of its recorded unique keys now belongs to a live row |
| `Engine.CollectIsInvisible` | packages/ormize-adapter-valkey/src/query.ts:119-135 | collecting an expired id changes no live row and no expiry at any later instant, keeps the invariant there, and leaves further collecting safe |
| `Engine.GcSafeWithoutUniques` | packages/ormize-adapter-valkey/src/query.ts:128-133 | a model without unique fields can always be collected safely |
| `Engine.RetimeKeepsInvIff` | packages/ormize-adapter-valkey/src/expiry.ts:33-50 | setting an expiry keeps the invariant exactly when the id has a live row; otherwise the id list gains a dangling entry |
| `Engine.OneExpiry` | packages/ormize-adapter-valkey/src/expiry.ts:15-51 | at every later instant a live row is visible through its object key, the id list, all its index sets and all its unique keys, or through none |
| `Engine.UniqueValues` | packages/ormize-adapter-valkey/src/index.ts:465-473 | no two live rows share the value of a unique field |
| `Engine.UntouchedKeepsInv` | packages/ormize-adapter-valkey/src/keys.ts:35-62 | writes under another model's name keep a model's invariant |
| `Engine.RowsDetermineStore` | packages/ormize-adapter-valkey/src/indexes.ts:16-56 | the derived structures are a function of the rows: equal live rows mean equal index, unique, membership and id-list keys |
| `Engine.TickKeepsInv` | packages/ormize-adapter-valkey/src/query.ts:124-125 | the invariant outlives the passage of time |
| `Runs.RunKeepsInv` | packages/ormize-adapter-valkey/src/index.ts:736-807 | the invariant of every model holds in every state of every run of creates, patches, deletes, expiries, collections, counter draws and ticks over several models |
| `Runs.StepLeavesOthers` | packages/ormize-adapter-valkey/src/keys.ts:35-62 | one model's writes leave every key of the other models alone |
| `Reset.ResetAll` | packages/ormize-adapter-valkey/src/index.ts:221-235 | from any state satisfying the invariants, reset leaves no key of the models and every other key untouched |
| `Reset.EmptyListLeavesNothing` | packages/ormize-adapter-valkey/src/index.ts:226-232 | once the id list is empty nothing of the model is stored but its counter |
| `Overlay.ObjectReadsSimulate` | packages/ormize-adapter-valkey/src/transaction.ts:154-173 | after any buffered writes, an object read through the overlay is the read after replaying the command log |
| `Overlay.StringReadsSimulate` | packages/ormize-adapter-valkey/src/transaction.ts:186-192 | the same for string reads |
| `Overlay.SortedReadsSimulate` | packages/ormize-adapter-valkey/src/transaction.ts:174-179 | the same for sorted sets, scores included, on keys never set or deleted as strings |
| `Overlay.SetReadsSimulate` | packages/ormize-adapter-valkey/src/transaction.ts:180-185 | the same for sets, on keys the transaction has not deleted |
| `Overlay.DeletedSetReadIff` | packages/ormize-adapter-valkey/src/transaction.ts:180-185 | after a deletion of the set, preceded by any writes and followed by any that neither set nor delete the key, the read agrees with the replay on a member exactly when a member seen before is named again afterwards |
| `Overlay.DeletedSetStillRead` | packages/ormize-adapter-valkey/src/transaction.ts:180-185 | the one-write case: a deleted set is still read from the store, and the read agrees exactly when the stored set was empty |
| `Overlay.RecreatedReadsBoth` | packages/ormize-adapter-valkey/src/transaction.ts:180-185 | an id deleted and created again in one transaction has the memberships of both its rows read, where the store will hold the new ones |
| `Executors.ValkeyTransaction.GetObj` | packages/ormize-adapter-valkey/src/transaction.ts:154-160 | returns what the store would return after the log |
| `Executors.ValkeyTransaction.MGetObj` | packages/ormize-adapter-valkey/src/transaction.ts:161-173 | likewise for a batch, in order, fetching only the keys the overlay lacks |
| `Executors.ValkeyTransaction.GetStr` | packages/ormize-adapter-valkey/src/transaction.ts:186-192 | returns what the store would return after the log |
| `Executors.ValkeyTransaction.ZMembers` | packages/ormize-adapter-valkey/src/transaction.ts:174-179 | returns the sorted set as it would be after the log |
| `Executors.ValkeyTransaction.SMembers` | packages/ormize-adapter-valkey/src/transaction.ts:180-185 | returns the set as it would be after the log, unless the transaction deleted the key |
| `Executors.ValkeyTransaction.Note` | packages/ormize-adapter-valkey/src/transaction.ts:197-236 | each write updates exactly the overlay tables it belongs to |
| `Executors.ValkeyTransaction.Issue` | packages/ormize-adapter-valkey/src/transaction.ts:197-238 | a buffered write moves the transaction's view as the command would move the store, and does not touch the store |
| `Executors.ValkeyTransaction.Commit` | packages/ormize-adapter-valkey/src/transaction.ts:241-257 | after commit the store is what the transaction showed |
| `Executors.ValkeyTransaction.Rollback` | packages/ormize-adapter-valkey/src/transaction.ts:259-265 | after rollback the overlay and the log are empty and the store was not written |
| `Executors.DirectExecutor.Issue` | packages/ormize-adapter-valkey/src/transaction.ts:118-131 | a direct write applies its command at once |
| `Executors.Effects` | packages/ormize-adapter-valkey/src/transaction.ts:197-238 | the effect of every executor write on every lookup of a well-typed store |
| `Executors.IncrCommutes` | packages/ormize-adapter-valkey/src/transaction.ts:194 | an immediate counter increment commutes with the buffered log |
| `Overlay.LifetimeReadIff` | packages/ormize-adapter-valkey/src/transaction.ts:193 | remaining lifetimes are not overlaid: for any store and any buffered writes, expiries included, the stored answer is the one after the log exactly when the log says nothing of the key or leaves it the lifetime it has |
| `Executors.ValkeyTransaction.PTtl` | packages/ormize-adapter-valkey/src/transaction.ts:193 | answers what the store holds, with that exact condition |
| `Executors.Executor.PTtl` | packages/ormize-adapter-valkey/src/transaction.ts:193 | likewise on either executor; a positive answer is always right where no expiry is buffered or stored in a transaction |
| `Executors.Executor.Issue` | packages/ormize-adapter-valkey/src/transaction.ts:71-92 | on either executor, a write has its stated effect on every lookup of the view and leaves a transaction's store alone |
| `Refinement.TransactionRefinesDirect` | packages/ormize-adapter-valkey/src/index.ts:898-914 | from equal stores without expiries, a committed transaction and the direct run of the same calls on any of several models end in equal stores with equal results; both succeed whenever no call can be refused and the callback does not throw; a rolled back transaction moved only the models' counters |
| `Refinement.RunInTransaction` | packages/ormize-adapter-valkey/src/index.ts:904-914 | commit on success leaves exactly the rows the calls specify, model by model; at the first refusal, and when the callback throws after calls that succeeded, the store is unchanged but for the models' counters; a list no call of which can be refused is aborted only by a throw |
| `Refinement.RunDirect` | packages/ormize-adapter-valkey/src/index.ts:128-135 | the direct run leaves exactly the rows the calls specify, model by model, and answers what they specify |
| `Refinement.InvokeAll` | packages/ormize-adapter-valkey/src/index.ts:736-807 | on either executor a list of calls on several models has the outcome defined on rows alone |
| `Refinement.SitsNext` | packages/ormize-adapter-valkey/src/keys.ts:35-62 | a call on one model moves that model's rows and counter, and leaves what the store shows of every other model |
| `Refinement.EndsDetermine` | packages/ormize-adapter-valkey/src/indexes.ts:16-56 | the rows and counters of the models over a given start determine the whole store |
| `Calls.Invoke` | packages/ormize-adapter-valkey/src/index.ts:736-807 | on either executor one call leaves and answers what it means on rows, and is refused only for a unique value taken or a filter the indexes cannot answer |
| `Calls.UpdateOutcome` | packages/ormize-adapter-valkey/src/index.ts:755-783 | what an update means on rows, field by field, on those left and those answered |
| `Indexes.PlanIndexes` | packages/ormize-adapter-valkey/src/indexes.ts:16-30 | the planned keys are exactly those the row's fields want |
| `Indexes.WantsMeans` | packages/ormize-adapter-valkey/src/indexes.ts:16-30 | one index key per indexed field the row has and one unique key per unique field, under the printed value |
| `Indexes.AddToIndexes` | packages/ormize-adapter-valkey/src/indexes.ts:33-56 | the id is listed under every planned key and nowhere else, its unique keys reserved, its membership set extended |
| `Indexes.RemoveFromIndexes` | packages/ormize-adapter-valkey/src/indexes.ts:59-72 | the id leaves every structure its membership set records, and only those |
| `Indexes.Reindex` | packages/ormize-adapter-valkey/src/indexes.ts:75-110 | the structures move from what the old row wants to what the new row wants |
| `Expiry.SetExpiry` | packages/ormize-adapter-valkey/src/expiry.ts:21-51 | object key, id list, each index score and each unique key of the id get the new expiry, nothing else changes |
| `Query.ExecuteQuery` | packages/ormize-adapter-valkey/src/query.ts:233-251 | an answered filter yields the live rows its resolution selects, each once; where its lookups can be relied on, every live row that satisfies it and nothing else; it is answered exactly when resolvable; nothing live changes |
| `Query.ExecuteBeside` | packages/ormize-adapter-valkey/src/query.ts:163-251 | a query for an equality on a key, indexed or unique field beside `ne`, `is` or `notIn` on another answers exactly the live rows that hold the value and whose other field is not, is, or is none of, what is named |
| `Filters.OperatorsMean` | packages/ormize-adapter-valkey/src/query.ts:52-71 | each operator alone, by what the row holds: `ne` and `notIn` admit a row without the field, `is`, `eq` and `in` do not; coerced operators ask the given meaning |
| `Filters.BagMeans` | packages/ormize-adapter-valkey/src/query.ts:74-82 | several operators on one field must all hold |
| `Filters.CombinatorsMean` | packages/ormize-adapter-valkey/src/query.ts:85-96 | `and`, `or` and `not` over filters, in any spelling, are conjunction, disjunction and negation of their verdicts |
| `Query.ActiveMembers` | packages/ormize-adapter-valkey/src/query.ts:119-135 | returns exactly the live rows that want the key; run directly it leaves no expired id listed there, in a transaction it changes nothing |
| `Query.EqualitySet` | packages/ormize-adapter-valkey/src/query.ts:137-149 | returns the ids whose live row has a value printing like the one asked for, by key, unique key or index set |
| `Query.Intersect` | packages/ormize-adapter-valkey/src/query.ts:151-160 | the common ids of all candidate sets |
| `Query.ResolveWhere` | packages/ormize-adapter-valkey/src/query.ts:163-226 | resolving through the store equals resolving over the live rows, errors included |
| `Query.Fetch` | packages/ormize-adapter-valkey/src/query.ts:240-250 | missing rows are skipped and the residual clauses decide the rest |
| `Resolution.LookupExactIff` | packages/ormize-adapter-valkey/src/query.ts:137-149 | a lookup by a primary key, unique or indexed field finds exactly the rows holding the value if and only if no other value they hold prints like it |
| `Resolution.SelectedIsMatching` | packages/ormize-adapter-valkey/src/query.ts:163-226 | an answered filter selects exactly the satisfying rows wherever its lookups can be relied on |
| `Resolution.EitherSelects` | packages/ormize-adapter-valkey/src/query.ts:181-195 | an `or` of two equalities on searchable fields is answered, with the rows that hold either value |
| `Resolution.Unindexed` | packages/ormize-adapter-valkey/src/query.ts:181-224 | a filter with no indexed condition is rejected for that, a negation included, and an `or` with a branch the indexes do not settle is rejected for it |
| `Resolution.ResolveIsRight` | packages/ormize-adapter-valkey/src/query.ts:163-226 | candidates plus residual clauses are exact for every filter whose lookups can be relied on, and resolution succeeds exactly on answerable ones |
| `Resolution.DroppedInIff` | packages/ormize-adapter-valkey/src/query.ts:201-205 | of a condition with both `eq` and `in`, on the primary key, a unique or an indexed field, the list is dropped: resolving it is exact on all rows exactly when the value is listed |
| `Adapter.EnforceUnique` | packages/ormize-adapter-valkey/src/index.ts:465-473 | reports a violation exactly when another id visibly holds one of the row's unique values |
| `Adapter.TakenIsRows` | packages/ormize-adapter-valkey/src/index.ts:465-473 | a unique value is taken in the store exactly when another live row has it |
| `Adapter.TakenMeans` | packages/ormize-adapter-valkey/src/index.ts:465-473 | by fields: another row holds a value of a unique field that prints like this row's |
| `Adapter.Create` | packages/ormize-adapter-valkey/src/index.ts:736-753 | stores the input under the key it gives, unless null or missing, and otherwise under the one drawn or generated, with its lifetime, whether or not the key is free; refused when a unique value is taken; the store stays sound exactly when the id can take the row and was not deleted earlier in the transaction |
| `Adapter.NextPk` | packages/ormize-adapter-valkey/src/index.ts:743 | draws the next number of the model's counter, at once even inside a transaction |
| `Adapter.PersistPatch` | packages/ormize-adapter-valkey/src/index.ts:497-513 | merges any patch into the live row keeping its expiry, answers nothing when the row is gone, refuses a taken unique value; the store stays sound exactly when the row still prints its key |
| `Adapter.Update` | packages/ormize-adapter-valkey/src/index.ts:755-783 | patches exactly the rows the filter selects, by any patch: each row done has, field by field, what the patch gives or else what it had, keeps its expiry, and is answered; the others stay; it stops on a unique violation only when the next row would take a value another row then has; the store is sound afterwards exactly when each row patched still prints its key |
| `Adapter.Delete` | packages/ormize-adapter-valkey/src/index.ts:785-807 | removes exactly the rows the filter selects and answers them |
| `Keyspace.RenderInjective` | packages/ormize-adapter-valkey/src/keys.ts:35-62 | distinct keys of all six families print distinctly when model and field names hold no colon |
| `Keyspace.IndexMisreadIff` | packages/ormize-adapter-valkey/src/indexes.ts:64 | under any prefix, an index key's text is taken for a unique key exactly when its model or field is `u`, its value starts with `u:` or holds `:u:`, or the prefix brings the mark |
| `Keyspace.UniqueIsRead` | packages/ormize-adapter-valkey/src/indexes.ts:64 | every unique key is recognised as one |
| `Cache.IORedisCacheStore.Set` | packages/ormize-cache-ioredis/src/index.ts:47-79 | an entry that is not too large is held for its lifetime, at least one, as the newest; exactly the shortest oldest prefix over the limits is evicted; what stays keeps its place and value; an oversized value only removes |
| `Cache.IORedisCacheStore.Evict` | packages/ormize-cache-ioredis/src/index.ts:66-78 | the loop ends with exactly that prefix gone from entries, order, sizes and total |
| `Cache.IORedisCacheStore.Get` | packages/ormize-cache-ioredis/src/index.ts:82-95 | a hit answers what is held and makes the entry the newest, the rest staying in place; a miss takes its index rows away |
| `Cache.IORedisCacheStore.Lookup` | packages/ormize-cache-ioredis/src/index.ts:106-125 | answers the key made of the shape and its tags' generations, and the value held there |
| `Cache.IORedisCacheStore.Invalidate` | packages/ormize-cache-ioredis/src/index.ts:128-133 | each tag's generation grows by the number of times it is named, from zero, and nothing else changes |
| `Cache.SetAccounted` | packages/ormize-cache-ioredis/src/index.ts:47-79 | a set keeps the accounts (total is the sum of sizes, order and sizes cover every held entry, scores distinct and issued) and restores both limits |
| `Cache.GetAccounted` | packages/ormize-cache-ioredis/src/index.ts:82-95 | a get keeps the accounts and loses no entry |
| `Cache.EvictionIsExact` | packages/ormize-cache-ioredis/src/index.ts:66-78 | the evicted set is determined by order, sizes and limits alone |
| `Cache.NewestStays` | packages/ormize-cache-ioredis/src/index.ts:62-78 | an entry that fits on its own is never evicted by its own set |
| `Cache.LimitsBoundEntries` | packages/ormize-cache-ioredis/src/index.ts:42-44 | the accounts overstate what is held, so the limits bound the held entries and their bytes |
| `Cache.TimePasses` | packages/ormize-cache-ioredis/src/index.ts:41-44 | expiry by time keeps the accounts |
| `Cache.EntryNameInjective` | packages/utilize/src/utils/cache-key.ts:11-13 | the printed key determines the shape and the generation list, whatever the shape holds |
| `Printing.PrintedInjective` | packages/ormize-cache-ioredis/src/index.ts:108-111 | a list of numbers joined by dots determines the list |
| `Coherence.HitsAreFresh` | packages/ormize-cache-ioredis/src/index.ts:106-133 | in every interleaving of readers, writers, evictions, clears and time in which the cache is cleared only while no tagged read is under way, a hit was read after every write already invalidated under one of its tags |
| `Coherence.RunKeeps` | packages/ormize-cache-ioredis/src/index.ts:186-205 | every state of every run is coherent: accounts, counters and the provenance of every entry |
| `Coherence.ClearKeeps` | packages/ormize-cache-ioredis/src/index.ts:212-222 | clearing while no tagged read is under way keeps the state coherent, counters starting over |
| `Coherence.ReadIsCached` | packages/ormize-cache-ioredis/src/index.ts:106-125 | what is read is kept: a lookup that misses, the read and the store after it lead to a lookup that hits with the answer |
| `Coherence.ClearUncovers` | packages/ormize-cache-ioredis/src/index.ts:212-222 | from any coherent state with a tagged read under way whose value is small enough to keep, some run with a clear ends in a hit read before a write already invalidated under one of its tags |
| `Normalise.NormaliseScopeWhere` | packages/utilize/src/gate.ts:564-582 | the rewritten filter has every combinator in lower case at every depth, and means what the original does on every row when each combinator and each field is written once at every level |
| `Normalise.NormaliseMeaning` | packages/utilize/src/gate.ts:564-582 | the rewritten filter means the original with only the last spelling of each combinator counted, at every level |
| `Normalise.NormalisePreserves` | packages/utilize/src/gate.ts:564-582 | without two spellings of one combinator at a level, rewriting keeps the meaning on every row |
| `Normalise.NormaliseWidensIff` | packages/utilize/src/gate.ts:573-576 | with clashing spellings the verdict on a row changes exactly when it meets every clause kept and fails one overwritten |
| `Normalise.ClashFreeIff` | packages/utilize/src/gate.ts:571-579 | the condition for keeping the meaning, by what is written: at every level no two clauses of one combinator, in any spelling, and no two on one field |
| `Normalise.RewritingLowers` | packages/utilize/src/gate.ts:571-579 | no combinator is left in another spelling at any depth |
| `Normalise.ClashLosesClause` | packages/utilize/src/gate.ts:573-576 | a concrete filter that loses its condition |
| `Normalise.NormaliseIdempotent` | packages/utilize/src/gate.ts:564-582 | rewriting twice is rewriting once |
| `Normalise.MergeIsConjunction` | packages/utilize/src/gate.ts:599-611 | the merged filter admits exactly the rows both filters admit |
| `Scopes.AndScopes` | packages/utilize/src/gate.ts:865-922 | the answer admits exactly the rows every source admits; it fails exactly when a malformed source comes before one refuses or two force a field to different values, and is silent exactly when all are |
| `Scopes.ConjunctionNarrows` | packages/utilize/src/gate.ts:853-863 | adding a source only narrows; order and repetition of sources do not matter |
| `Scopes.ResolvePreserves` | packages/utilize/src/gate.ts:780-805 | resolving a source keeps the rows it admits |
| `Scopes.CollectScopeEqualities` | packages/utilize/src/gate.ts:685-720 | collects every `and`-nested equality under its field, and counts what cannot be bound |
| `Scopes.PinsMeaning` | packages/utilize/src/gate.ts:685-720 | a matching row meets every collected equality, and a bindable filter asks for nothing more |
| `Scopes.BindScopeParameters` | packages/utilize/src/gate.ts:743-778 | denies exactly on a denied scope or a conflict on a named field; a binding covers the whole scope with each parameter's value; anything else is a configuration error |
| `Scopes.CapitalNames` | packages/utilize/src/gate.ts:672-674 | a parameter of `scope`, a capital letter and a rest names the field of the small letter and the rest |
| `Scopes.OtherNames` | packages/utilize/src/gate.ts:672-674 | any other first character stays as it is |
| `Scopes.BindOne` | packages/utilize/src/gate.ts:743-778 | a scope of one equality is bound into the parameter that names its field, with exactly its value |
| `Scopes.BindIsExactIff` | packages/utilize/src/gate.ts:743-778 | the bound query admits exactly the scope's rows if and only if no equality is with null |
| `Scopes.ConflictMatchesNothing` | packages/utilize/src/gate.ts:759-765 | when binding denies for conflicting values, no row is in the scope |
| `Permissions.LeafDenotes` | packages/utilize/src/permissions.ts:301-377 | off creates, the compiled rule leaves in reach exactly the rows the rule permits, at every nesting depth, empty lists and missing principal values included |
| `Permissions.RuleMeans` | packages/utilize/src/permissions.ts:282-377 | each rule by what the principal carries and the row holds: own and tenant need a scalar that is not null, group a list the row's value is in, any and all some or every branch |
| `Permissions.CombineMeaning` | packages/utilize/src/permissions.ts:339-375 | `any` compiles to the union of its branches' filters, or to nothing once a kept branch imposes nothing or none has a filter; `all` compiles to the intersection |
| `Permissions.CompareDenotes` | packages/utilize/src/permissions.ts:282-299 | own and tenant rules compare with the principal's value, and deny without one |
| `Permissions.GateDenotes` | packages/utilize/src/permissions.ts:379-438 | a rules tree admits what its most specific rule for the operation permits, and nothing without a principal unless the rule is open |
| `Creates.CreateDenotes` | packages/utilize/src/permissions.ts:282-377 | under a condition read off rule and principal, a create leaves behind exactly the rows the rule permits, at every nesting depth |
| `Creates.CreateExactIff` | packages/utilize/src/permissions.ts:339-377 | that condition holds if and only if they are the same rows, for rules no two branches of which name one field, except `own` and `tenant` branches of one `all` |
| `Creates.GateCreates` | packages/utilize/src/permissions.ts:379-438 | a rules tree on a create admits what its most specific rule permits, under the same condition |
| `Creates.CreateAnyDropsForced` | packages/utilize/src/permissions.ts:340-354 | on a create, `any` drops the value its branch would force, and rows the rule does not permit get through |
| `Creates.CreateAllKeepsLast` | packages/utilize/src/permissions.ts:357-375 | on a create, `all` with two values for one field forces the last, though no row is permitted |
| `Includes.ScopedPlanShowsVisible` | packages/ormize/src/scope.ts:297-351 | a scoped read shows the same parents and children, at every depth, as the original read over the database without the hidden rows, join rows included, under conditions read off the plan and the scopes |
| `Includes.IncludeAgreesIff` | packages/ormize/src/scope.ts:310-345 | one descriptor adds to a parent what it adds in the visible world, if and only if what is asked can be said, or the join the adapter infers has visible children anyway |
| `Includes.UnsaidLosesParents` | packages/ormize/src/scope.ts:313-345 | where what is asked cannot be said, a parent without related rows is kept or lost wrongly: a required denied relation with no match-nothing filter, or a join inferred from the filter of a denied or scoped relation |
| `Includes.VisibleRelatedIff` | packages/ormize/src/scope.ts:310-313 | through a join model of any scope the visible rows related are right exactly when each of them is linked by a visible join row |
| `Includes.HiddenEdgeShows` | packages/ormize/src/scope.ts:310-313 | a hidden join row: the folded plan shows the child it links, the visible world does not |
| `Includes.ScopeIncludePlan` | packages/ormize/src/scope.ts:297-351 | the loop builds the specified plan |
| `Includes.MergedKeepsVisible` | packages/ormize/src/scope.ts:275-283 | the scope inside the filter keeps what the filter keeps of the visible rows |
| `Includes.VisibleWorld` | packages/ormize/src/scope.ts:275-283 | a row is in the visible world exactly when it is stored and its model's scope, as the request gives it, neither denies nor filters it out |
| `Includes.ManyShows` | packages/gqlize/__tests__/helper/matrix-oracle.ts:99-148 | a relation to many rows shows exactly the target's rows that are joined, match the filter and keep their own required relations |
| `Includes.JoinedMeans` | packages/gqlize/__tests__/helper/matrix-oracle.ts:99-148 | rows are joined by the relation's key and foreign key, or by a stored join row holding both keys |
| `Includes.OneShows` | packages/gqlize/__tests__/helper/matrix-oracle.ts:99-148 | a relation to one row shows at most one, a related one that matches; without further relations, none exactly when no related row matches |
| `Includes.ParentKeptIff` | packages/gqlize/__tests__/helper/matrix-oracle.ts:211-281 | a parent is lost exactly when a relation loses it earlier, or a join the caller requires, or the adapter infers from the filter, shows nothing; one more relation is recorded when it shows something |
| `Includes.ReadShows` | packages/gqlize/__tests__/helper/matrix-oracle.ts:211-281 | a read shows exactly the model's rows that match and keep their required relations, each with its relations |
| `Includes.VisibleRelated` | packages/gqlize/__tests__/helper/matrix-oracle.ts:99-148 | related rows of the visible world, read off the keys and join rows of its tables, are the visible related rows, when no scope hides rows of the join model |
| `Includes.RowsAgree` | packages/gqlize/__tests__/helper/matrix-oracle.ts:211-281 | building a level from the scoped plan and from the visible world agrees for every list of parents |
| `ScopeMemo.MemoKeyInjective` | packages/ormize/src/scope.ts:254 | the memo key determines principal key, model and operation, whatever the principal's key holds |
| `ScopeMemo.TextCollidesIff` | packages/ormize/src/scope.ts:141-166 | a text id shares its key with another kind of id if and only if it is spelled like a printed whole number or like one of the two reserved marks |
| `ScopeMemo.PrincipalKeyInjective` | packages/ormize/src/scope.ts:141-166 | principals none of whose text ids is spelled like another kind have equal keys exactly when they are equal |
| `ScopeMemo.Memo.ScopeFor` | packages/ormize/src/scope.ts:247-264 | a question asked before gets the kept decision, a new one is decided and kept |
| `ScopeMemo.OneDecision` | packages/ormize/src/scope.ts:247-264 | within one request the same question always gets the same decision, whatever the predicate would now say |
| `Coordinator.OrmizeTransaction.HandleFor` | packages/ormize/src/transaction.ts:32-44 | a call with none in between begins a transaction at most once per adapter, and none where unsupported |
| `Handles.LostIff` | packages/ormize/src/transaction.ts:32-44 | with calls interleaved in any way, a begun transaction is out of reach of every commit and rollback if and only if some call noted its own over one already noted |
| `Handles.OverlapLoses` | packages/ormize/src/transaction.ts:32-44 | two calls waiting for one adapter at once: when both finish, the first one's transaction is lost |
| `Handles.TurnsLoseNothing` | packages/ormize/src/transaction.ts:32-44 | calls for one adapter that take turns lose nothing: every transaction begun is noted or finalised |
| `Coordinator.OrmizeTransaction.AfterCommit` | packages/ormize/src/transaction.ts:52-54 | enrols one more callback |
| `Coordinator.OrmizeTransaction.Commit` | packages/ormize/src/transaction.ts:61-86 | a prefix in opening order commits, the next fails and is rolled back with the rest, and then every callback enrolled runs exactly once, in order, if something committed or nothing was open, and otherwise none; nothing stays enrolled |
| `Coordinator.OrmizeTransaction.Rollback` | packages/ormize/src/transaction.ts:88-93 | every open transaction is rolled back and no callback runs, then or later |
| `Coordinator.FinalisedOnce` | packages/ormize/src/transaction.ts:61-93 | over any run every opened transaction is committed or rolled back exactly once, never both, and no callback runs twice |
| `EngineLinks.Add` | packages/ormize-adapter-valkey/src/index.ts:615-627 | `add` of the storage engine on either executor: idempotent union on the live join rows, no duplicate join row appears, other sources' rows untouched, given attributes end up on every linked pair, exactly when the attributes name no other keys than the pairs'; at a refusal the targets before it are linked |
| `EngineLinks.Remove` | packages/ormize-adapter-valkey/src/index.ts:628-633 | `remove`: difference, by one delete per target that is never refused; other sources' rows untouched |
| `EngineLinks.Set` | packages/ormize-adapter-valkey/src/index.ts:647-655 | `set`: exactly the named targets, one join row each with the attributes, other sources' rows untouched, exactly when the attributes name no other keys; at a refusal the targets before it are linked |
| `EngineLinks.LinkOne` | packages/ormize-adapter-valkey/src/index.ts:617-623 | links one pair through find, create and patch, exactly when the attributes name no other keys, on either branch |
| `Links.AttributesLinkIff` | packages/ormize-adapter-valkey/src/index.ts:621-622 | attributes are spread last over a new join row and over the one there: either is a row of the pair exactly when they name no other keys |
| `Links.AppendLinkIff` | packages/ormize/src/cross-adapter.ts:333-334 | a new join row links the pair, and does what linking should, exactly when the attributes name no other keys |
| `Links.RewriteLinkIff` | packages/ormize/src/cross-adapter.ts:335-336 | patching the pair's join row leaves it linked, if that was its only row, and does what linking should, exactly when the attributes name no other keys |
| `EngineLinks.PointEach` | packages/ormize-adapter-valkey/src/index.ts:624-633 | for `hasMany`, each named existing row in turn gets the foreign key, until a write is refused |
| `EngineLinks.SetAll` | packages/ormize-adapter-valkey/src/index.ts:647-655 | for `hasMany` and `hasOne`, clearing every current child and pointing the named rows leaves the specified foreign keys; at a refusal the writes before it stand |
| `Links.JoinTable.Add` | packages/ormize/src/cross-adapter.ts:314-336 | across adapters, idempotent union; no duplicate join row appears; other sources untouched; given attributes end up on every linked pair: exactly when the attributes name no other keys than the pairs' |
| `Links.JoinTable.Unlink` | packages/ormize/src/cross-adapter.ts:355-362 | difference, by a single delete; the same specification |
| `Links.JoinTable.Set` | packages/ormize/src/cross-adapter.ts:369-372 | exactly the named targets are linked, one join row each with the attributes, other sources untouched, exactly when the attributes name no other keys |
| `Links.JoinTable.LinkOne` | packages/ormize/src/cross-adapter.ts:331-336 | creates the pair's join row or updates the one there, the attributes last; the pair is linked as asked exactly when they name no other keys |
| `Links.JoinTable.BtmKeys` | packages/ormize/src/cross-adapter.ts:109-142 | each linked key once, nulls skipped; nothing for a source whose key is missing or null |
| `Links.TargetTable.SetDifference` | packages/ormize/src/cross-adapter.ts:270-285 | clearing only the children no longer named leaves the same foreign keys as clearing all |
| `Links.TargetTable.PointEach` | packages/ormize/src/cross-adapter.ts:249-263 | add and remove point exactly the named existing rows |
| `Links.RelinkedChildren` | packages/ormize/src/cross-adapter.ts:269-285 | after set the children are exactly the named ones, and other sources gain none |
| `Links.PointedChildren` | packages/ormize/src/cross-adapter.ts:249-268 | linking is idempotent union and unlinking is difference |
| `Codecs.PrefixRoundTripIff` | packages/gqlize/src/codecs/id.ts:83-121 | a decimal key returns exactly when its prefix is not empty and no longer prefix starts the printed id |
| `Codecs.PrefixRoundTrips` | packages/gqlize/src/codecs/id.ts:83-121 | where no prefix extends another by digits, every decimal key of every type returns, padded or not |
| `Codecs.KeyReturnsIff` | packages/gqlize/src/codecs/id.ts:83-121 | any key returns exactly when, besides that, it is not empty and, with padding, is digits without a leading zero or at least as long as the padding |
| `Codecs.ForeignIff` | packages/gqlize/src/codecs/id.ts:104-117 | a value is not one of ours exactly when no prefix starts it or a prefix is the whole of it |
| `Codecs.FirstIsLongest` | packages/gqlize/src/codecs/id.ts:86-88 | the first match in prefix order is a longest match |
| `Codecs.PlainRoundTripIff` | packages/gqlize/src/codecs/cursor.ts:69-87 | a plain cursor returns exactly when its connection has a name, colons included |
| `Codecs.SignedRoundTripIff` | packages/gqlize/src/codecs/cursor.ts:106-145 | a signed cursor returns exactly when its connection has a name, dots and colons included |
| `Codecs.SignedIsAuthentic` | packages/gqlize/src/codecs/cursor.ts:118-144 | only a value carrying its own payload's signature is read |
| `Codecs.PlainIsNotSigned` | packages/gqlize/src/codecs/cursor.ts:118-134 | a plain cursor is never read as a signed one |
| `Codecs.SignedIsNotPlain` | packages/gqlize/src/codecs/cursor.ts:72-85 | a signed cursor is never read as a plain one |
| `Codecs.FallbackReads` | packages/gqlize/src/codecs/cursor.ts:156-170 | a value the earlier codecs reject is read by the first codec that accepts it |
| `Codecs.MigrationReadsBoth` | packages/gqlize/src/codecs/cursor.ts:147-170 | moving between plain and signed cursors, in either order, keeps both formats readable |

## Left out

- Redis itself, sockets, script loading and promise scheduling: each command or script is one atomic step, and direct writes apply in issue order.
- JSON, dates, buffers, big integers, SHA-1, HMAC and base64: rows are maps of scalar values, printing a value to a key segment and signing are arbitrary functions with the stated hypotheses, and relay codecs are not modelled.
- JavaScript coercion and text patterns: `gt`, `like` and their kin have an arbitrary meaning, and everything is proved for every such meaning. `undefined` values and an operator bag with an `undefined` member do not occur.
- Hooks, defaults, `whereOperators`, sorting, limits and pagination: the query theorems are about the rows found before them, and `count` is the length of that list.
- `ValkeyModel` (`packages/ormize-adapter-valkey/src/model.ts`) is a value with its key, index and unique field lists; declaring fields and adding indexes happen before any operation.
- Sorting candidate sets by size before intersecting them changes the cost only and is not modelled.
- Updates with an explicit new expiry appear only in `Engine.NewTtlKeepsInvIff`, where the exact condition is; expiries inside a transaction are excluded by hypothesis, since remaining lifetimes are not overlaid (`LifetimeReadIff`).
- One clock reading per operation: an object expiring between two commands of one operation is not modelled.
- TransactionRefinesDirect: says nothing of equality where one side is refused, because the order in which an update meets its rows is unspecified and decides whether it meets a unique violation; `Smooth` lists say when neither is. Lists outside `KeysKept` are not covered: an id deleted and created again has the memberships of both its rows read (`RecreatedReadsBoth`), so that deleting it once more also drops unique keys another row may have taken, and a row under a key it does not print breaks the invariant as `PatchKeepsInvIff` and `Adapter.Update` say.
- Commands sent to a key of the wrong type: the key families make that impossible, which `Shaped` states.
- Telling unique keys by the text `:u:` is replaced by the key's family; `Keyspace.IndexMisreadIff` says when the text misleads.
- Lua number formatting at large magnitudes and fractional lifetimes in the cache; the two-step path of reading generations and then getting the entry, and reconnecting or closing clients.
- `clear` of the cache scans and deletes in batches; the model clears in one step. Commits and rollbacks are one step in `Handles`.
- A scope filter whose own field is named `where`, `set` or `native` is read as an envelope by the original; the model's answers are tagged. Native filters are carried, not interpreted, and are not modelled.
- Parameters are recognised by a regular expression over query text; the model starts from the list of names, and lowers only A to Z in a field's first letter.
- CreateExactIff: leaves out rules whose branches share fields in other ways, where whether the rows are the same is a question about two arbitrary monotone formulas; `CreateDenotes` gives the sufficient half for them too. In a rule, a list where `own` or `tenant` expects a scalar is read as missing, which admits no row either way.
- Include descriptors are a flat list instead of a list of maps, and results are compared with empty relations left out; ordering and pagination of children are not modelled. `Includes` takes the decisions of one request as a function, which `ScopeMemo.OneDecision` justifies; predicates that re-enter the memo, and composite ids that cannot be serialized, are not modelled.
- Scopes inside the cross-adapter accessors, `belongsTo` accessors (one write each), and the fetching of target rows behind `get`. The adapter that hosts a cross-adapter join model is a table of rows by identity, on which a create or update is never refused.
- EngineLinks.Add: asks that the keys creates will draw are free and distinct, that the keys asked for, those held and those attributes name print distinctly, that attributes do not name the join row's own primary key, and that no expired join row is stored where the join model has unique fields.
- The order in which several rollbacks or callbacks settle; a rollback that itself fails is absorbed by the original and counts as rolled back.
- The Sequelize adapter, GraphQL, OpenAPI, Zod, Nest and Temporal layers, the CLI, and permission gates that are single lookups: they would add only easy members.
