# Transaction-index backfill (Blobscan scripts)

A Dafny model of the reconciliation loop in `scripts/populate-tx-indexes.ts`.
The loop repeatedly does four things:

1. It pages through stored blocks that still have transactions with a null
   `index` and no transaction-fork markers, 50 at a time, in ascending
   timestamp order, resuming after a timestamp cursor.
2. It fetches each block of the page from the chain node.
3. For every stored transaction of the block, it computes the position of
   the transaction's hash in the chain block's transaction list.
4. It writes those positions back and moves the cursor to the last block
   of the page.

The run stops at the first empty page. A stored hash that the chain block
does not list is fatal.

The model is split into modules:

- `Types`: blocks, the index column of the transaction table, the chain
  node's view of the chain, index pairs and faults.
- `Selection`: the candidate filter and the page query. The query is
  defined as "repeatedly take the least-timestamp eligible block after the
  cursor", so that ascending order and completeness are proved rather than
  assumed. This module also holds the query as the source writes it
  (`PrismaPage`; see "## Findings").
- `Matching`: `findIndex`, the per-block `map` that throws, and the
  flattening of a page's results. These are pure functions.
- `TxStore`: the store as a class `Store`. Its fields are the block list
  and the `index` column, and its methods change that column one record at
  a time. `Apply` is the functional meaning of a sequence of updates.
- `Driver`: the do/while loop as the method `PopulateTxIndexes`. It is
  proved against the invariant `Progress` and decreases the set of
  candidate blocks.

The chain node is a parameter: a map from block height to the ordered list
of transaction hashes. A height that is missing from the map stands for the
RPC call failing with "block not found".

The store invariant `TxStore.WellFormed` says three things:

- different blocks have different timestamps;
- different blocks list disjoint transactions;
- every transaction a block lists has a record in the transaction table.

The first is the assumption under which a timestamp-only cursor can be
complete. The other two hold by the schema: a transaction has one block,
and the relation is a foreign key.

## Model

| member | source | states |
|---|---|---|
| Selection.FirstAfter | scripts/populate-tx-indexes.ts:59-61 | The first row in ascending timestamp order after the cursor. The result is an eligible stored block whose timestamp is least among the eligible blocks. None means that no block after the cursor is eligible. |
| Selection.Page | scripts/populate-tx-indexes.ts:25-62 | The page query. It returns at most 50 (`take`) blocks, strictly ascending by timestamp. Every block is a stored block with a null-index transaction, with no fork marker, and after the cursor. So a forked block is never selected. |
| Selection.PageComplete | scripts/populate-tx-indexes.ts:26-61 | The query with the cursor taken strictly after the cursor row skips nothing. Every eligible block up to the page's last timestamp is in the page. A page shorter than the page size holds every eligible block; in particular, an empty page means nothing eligible is left. |
| Selection.PageIsCompletePrefix | scripts/populate-tx-indexes.ts:26-61 | A page of any size skips no eligible block: every eligible block up to its last timestamp is in it, and a short page holds every eligible block. |
| Selection.PageEmpty | scripts/populate-tx-indexes.ts:64-66 | A page is empty exactly when no block was asked for or no block after the cursor is eligible, so the loop's empty-page test means no candidate after the cursor. |
| Selection.PrismaPageSkipsNextCandidate | scripts/populate-tx-indexes.ts:26-38 | The query as written (cursor row located without the filter, then `skip: 1`), for any `take`. When no candidate has the cursor's timestamp, the least candidate after the cursor is missing from the page, although it heads the intended page. Every block of the as-written page lies after it. |
| Matching.FindIndex | scripts/populate-tx-indexes.ts:78-80 | `findIndex` with `===`. The result is -1 exactly when the hash is absent. Otherwise it is the zero-based position of the first occurrence. |
| Matching.BlockIndexes | scripts/populate-tx-indexes.ts:77-92 | The per-block `map`. It succeeds exactly when every stored hash occurs in the chain block's list. It then gives one pair per stored hash, in stored order, each holding the hash's first position. Otherwise it throws `TxNotFound`, naming the block's number and the first stored hash that is missing. |
| Matching.PageIndexes | scripts/populate-tx-indexes.ts:70-98 | Fetching, matching and `flat()` for a page. It succeeds exactly when every page block is served by the chain and all its hashes are listed. The pairs are then the page's stored hashes in block order, one pair per stored transaction, each holding the first position in the chain list of a page block that stores it. On failure it reports the fault of a failing page block and produces no pairs. |
| Matching.AllTxsMembers | scripts/populate-tx-indexes.ts:98 | A hash is among a page's flattened hashes exactly when some block of the page stores it. |
| Matching.AllTxsAppend | scripts/populate-tx-indexes.ts:119 | Flattening and the transaction count distribute over concatenating pages. |
| Matching.ExampleIndexes | scripts/populate-tx-indexes.ts:70-98 | A worked example: blocks #100 [A, B] and #101 [C] against the same chain lists give A→0, B→1, C→0. |
| Matching.FirstPositionUnique | scripts/populate-tx-indexes.ts:78-80 | A hash has only one first position, so the computed index is determined by the chain data. |
| TxStore.ApplyFrame | scripts/populate-tx-indexes.ts:103-114 | Updates by existing hashes add and remove no record, leave every unnamed record unchanged, and never reset an index to null. |
| TxStore.ApplyWrites | scripts/populate-tx-indexes.ts:103-114 | After pairs that agree on each hash, every named record holds its pair's index. |
| TxStore.ApplyIdempotent | scripts/populate-tx-indexes.ts:103-114 | Writing indexes that are already stored changes nothing, so re-running the update phase of a page is harmless. |
| TxStore.OwningBlock | scripts/populate-tx-indexes.ts:29-33 | Under the store invariant, a transaction belongs to one block only. |
| TxStore.Store.constructor | scripts/populate-tx-indexes.ts:6 | A store over blocks and an index table that satisfy the store invariant. |
| TxStore.Store.FindIncompletePage | scripts/populate-tx-indexes.ts:25-62 | The page query on the store's current state, changing nothing. It returns at most 50 eligible stored blocks in ascending timestamp order. It skips none: every eligible block up to the page's last timestamp is in it, and a short page holds every eligible block. |
| TxStore.Store.UpdateIndex | scripts/populate-tx-indexes.ts:105-112 | `transaction.update` by hash sets that record's index and changes nothing else. The store invariant is kept. |
| TxStore.Store.UpdateIndexes | scripts/populate-tx-indexes.ts:103-114 | The update phase of a page. The new index table is the old one with every pair applied in order. The blocks and the set of records do not change, and the store invariant is kept. |
| Driver.PageReconciled | scripts/populate-tx-indexes.ts:98-114 | After a page's pairs are written, every transaction of every page block holds the first position of its hash in its block's chain list. |
| Driver.PairsConsistent | scripts/populate-tx-indexes.ts:98-114 | Pairs computed from the blocks of one store never give one hash two different indexes. So the order of the parallel updates does not matter. |
| Driver.CandidatesShrink | scripts/populate-tx-indexes.ts:64-139 | When candidacy only shrinks across a page and a candidate block of the page is now reconciled, that block leaves the candidate set. So the set strictly shrinks and the loop terminates. |
| Driver.StepProgress | scripts/populate-tx-indexes.ts:98-138 | One page preserves the loop invariant. The invariant covers the schema, that indexes are never cleared, that visited blocks are ascending initial candidates and all reconciled, that the cursor is the last visited timestamp, that no remaining candidate lies at or before the cursor, that every passed initial candidate was visited, and that only visited blocks' records were written. The candidate set strictly shrinks, and the counter grows by the number of pairs. |
| Driver.StepFullPages | scripts/populate-tx-indexes.ts:135-139 | After a full page (50 blocks, the `take`) the visited blocks are still a whole number of full pages. After a short page, nothing after the new cursor is eligible, so the next query is empty and the run ends. |
| Driver.Finished | scripts/populate-tx-indexes.ts:64-66 | At an empty page, no candidate is left. The visited blocks are exactly the initial candidates. |
| Driver.Aborted | scripts/populate-tx-indexes.ts:82-98 | A failing page reports the fault of one of its own blocks, an initial candidate that does not match the chain. No block of the failing page has been visited. |
| Driver.EmptyFirstPageIffDone | scripts/populate-tx-indexes.ts:25-66 | The first page of a run is empty exactly when no candidate is left. So a run after a finished run updates nothing. |
| Driver.AsWrittenCursorSkips | scripts/populate-tx-indexes.ts:26-38 | At any page boundary of either loop: once the page ending at a block has been written, that block is reconciled and the cursor is its timestamp. Then the next candidate after the cursor heads the intended page but is missing from the as-written page, and every block of the as-written page lies after it. |
| Driver.PopulateTxIndexes | scripts/populate-tx-indexes.ts:12-139 | The whole run. Blocks and records are unchanged in number, and only the indexes of transactions of visited blocks are written. Every visited block is reconciled. Visited blocks are initial candidates in ascending timestamp order, so none is visited twice. On success, no candidate is left, the visited blocks are exactly the initial candidates, and the result is `totalTxsUpdated`, the number of stored transactions of the visited blocks. On a fault, the visited pages were all full pages of 50 blocks, and every initial candidate the cursor has passed was visited, so every earlier page was completed. The failing page is the page query at the cursor after the visited pages, and none of its blocks was visited. Only visited blocks' records were written, so the failing page wrote nothing. The error is the fault of one of its blocks, an initial candidate that does not match the chain. |

## Left out

- Database and RPC I/O: Prisma, the viem client, `Bun.env` and `clients/ethereum.ts` become the `Store` class and the `chain` map.
- Transient failures and retries of either service are not modelled. Any chain fault aborts the run, as in the source.
- The initial `transaction.count` (lines 15-19), the percentage (line 122), the timings (`performance.now`), the progress and final log lines, and `$disconnect` have no effect on the store and are not modelled.
- Matching.PageIndexes: the page's fetches run concurrently under `Promise.all`, and when several blocks fail the source reports whichever rejection settles first. The model reports the first failing block in page order. It states only that the fault belongs to a failing page block, which is what holds for any settling order.
- TxStore.Store.UpdateIndexes: the updates run concurrently. The model applies them in page order, which is enough because `Driver.PairsConsistent` shows the pairs never disagree. Partial completion after a crash is not modelled.
- TxStore.Store.UpdateIndex: requires that a record with the hash exists, where Prisma would throw. Under the store invariant every stored transaction has a record, so the run never reaches that error.
- TxStore.WellFormed: timestamps are assumed distinct across blocks. With ties, a timestamp-only cursor cannot be complete, so the model assumes distinct timestamps.
- Timestamps are integers standing for the `Date` values. Only their order is used.
- Concurrent ingestion of new blocks during a run is not modelled. The store's block list is fixed for the run.

## Findings

| source | as written | input that shows it | evidently intended | confidence | as-written member | corrected member |
|---|---|---|---|---|---|---|
| scripts/populate-tx-indexes.ts:26-38 | The query passes `cursor: { timestamp }` with `skip: 1`. Prisma finds the cursor row by its timestamp without the `where` filter and returns filtered rows from that timestamp on, then skips one. Once a page has been processed, its last block has no null index left, so it is no longer returned. `skip: 1` then drops the next real candidate. | 51 candidate blocks with distinct timestamps and no forks. The first page reconciles blocks 1-50. The second query returns only block 51, skips it and comes back empty. The run ends with block 51's indexes still null. | Each page starts strictly after the cursor, so no candidate is skipped. | medium; not executed; rests on Prisma locating the cursor row without the `where` filter | Selection.PrismaPageSkipsNextCandidate | Selection.PageComplete |

The driver uses the corrected query (`Selection.Page`, strictly after the
cursor), and `Selection.PageComplete` proves it skips nothing. After any page
that was written, of either loop, the page's last block is reconciled and the
cursor is its timestamp; `Driver.AsWrittenCursorSkips` needs no more than that,
so with the query as written the skip happens at every page boundary.
