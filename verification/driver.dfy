/** The reconciliation driver: the cursor-driven do/while loop that pulls a
    page of candidate blocks, matches their transactions against the chain,
    writes the indexes back and moves the cursor past the page. */
module Driver {
  import opened Types
  import opened Selection
  import opened Matching
  import opened TxStore

  /** Every stored transaction of the block holds the zero-based position of
      its hash in the chain block's list. */
  predicate Reconciled(b: Block, chain: Chain, idx: IndexTable) {
    b.number in chain &&
    forall h :: h in b.txs ==> h in idx && idx[h].Some? && FirstPosition(chain[b.number], h, idx[h].value)
  }

  /** `idx` has the records of `idx0`, and every index set in `idx0` is still
      set in `idx`. */
  predicate Dominates(idx0: IndexTable, idx: IndexTable) {
    idx.Keys == idx0.Keys && forall h :: h in idx0 && idx0[h].Some? ==> idx[h].Some?
  }

  /** Candidacy only shrinks from `idx` to `idx'`. */
  predicate Monotone(bs: seq<Block>, idx: IndexTable, idx': IndexTable) {
    forall b :: b in bs && IsCandidate(b, idx') ==> IsCandidate(b, idx)
  }

  /** Every block of `blocks` is reconciled in `idx`. */
  predicate AllReconciled(blocks: seq<Block>, chain: Chain, idx: IndexTable) {
    forall b :: b in blocks ==> Reconciled(b, chain, idx)
  }

  /** The visited blocks are store blocks that were candidates from the
      start. */
  predicate FromCandidates(bs: seq<Block>, idx0: IndexTable, visited: seq<Block>) {
    forall b :: b in visited ==> b in bs && IsCandidate(b, idx0)
  }

  /** The cursor is the timestamp of the last visited block, absent before
      the first page. */
  predicate CursorAt(cursor: Option<int>, visited: seq<Block>) {
    cursor == CursorOf(visited)
  }

  /** The cursor after the pages `visited`: the timestamp of the last visited
      block, absent before the first page. */
  function CursorOf(visited: seq<Block>): Option<int> {
    if visited == [] then None else Some(visited[|visited| - 1].timestamp)
  }

  /** The cursor has passed no remaining candidate. */
  predicate CursorBehind(bs: seq<Block>, idx: IndexTable, cursor: Option<int>) {
    forall b :: b in bs && IsCandidate(b, idx) ==> After(b.timestamp, cursor)
  }

  /** Every initial candidate the cursor has passed was visited. */
  predicate PassedVisited(bs: seq<Block>, idx0: IndexTable, cursor: Option<int>, visited: seq<Block>) {
    forall b :: b in bs && IsCandidate(b, idx0) && !After(b.timestamp, cursor) ==> b in visited
  }

  /** Only transactions of visited blocks were written. */
  predicate WrittenOnly(idx0: IndexTable, idx: IndexTable, visited: seq<Block>) {
    forall h :: h in idx0 && h !in AllTxs(visited) ==> h in idx && idx[h] == idx0[h]
  }

  /** The visited pages were all full (`PageSize` blocks each), unless the
      last was short, in which case nothing after the cursor is left. */
  predicate FullPages(bs: seq<Block>, idx: IndexTable, cursor: Option<int>, visited: seq<Block>) {
    |visited| % PageSize == 0 || Page(bs, idx, cursor, PageSize) == []
  }

  /** What holds between pages, after the pages `visited` were processed in
      order from the store `bs`, `idx0` and the cursor is `cursor`. */
  ghost predicate Progress(bs: seq<Block>, idx0: IndexTable, idx: IndexTable, chain: Chain,
                           cursor: Option<int>, visited: seq<Block>)
  {
    && WellFormed(bs, idx0)
    && Dominates(idx0, idx)
    && Ascending(visited)
    && FromCandidates(bs, idx0, visited)
    && AllReconciled(visited, chain, idx)
    && CursorAt(cursor, visited)
    && CursorBehind(bs, idx, cursor)
    && PassedVisited(bs, idx0, cursor, visited)
    && WrittenOnly(idx0, idx, visited)
    && FullPages(bs, idx, cursor, visited)
  }

  /** A block the driver has not visited still has its initial indexes, so
      an initial candidate that was not visited is still a candidate. */
  lemma Untouched(bs: seq<Block>, idx0: IndexTable, idx: IndexTable, visited: seq<Block>, b: Block)
    requires WellFormed(bs, idx0)
    requires forall v :: v in visited ==> v in bs
    requires WrittenOnly(idx0, idx, visited)
    requires b in bs && b !in visited
    ensures forall h :: h in b.txs ==> h in idx && idx[h] == idx0[h]
    ensures IsCandidate(b, idx0) ==> IsCandidate(b, idx)
  {
    forall h | h in b.txs
      ensures h in idx && idx[h] == idx0[h]
    {
      AllTxsMembers(visited, h);
    }
  }

  /** Blocks of the next page were candidates from the start and have not
      been visited yet. */
  lemma PageFresh(bs: seq<Block>, idx0: IndexTable, idx: IndexTable, chain: Chain,
                  cursor: Option<int>, visited: seq<Block>, page: seq<Block>)
    requires Progress(bs, idx0, idx, chain, cursor, visited)
    requires page == Page(bs, idx, cursor, PageSize)
    ensures forall b :: b in page ==> b in bs && IsCandidate(b, idx0) && b !in visited
  {
    forall b | b in page
      ensures b in bs && IsCandidate(b, idx0) && b !in visited
    {
      var k :| 0 <= k < |page| && page[k] == b;
      assert Eligible(page[k], idx, cursor);
    }
  }

  /** Pairs computed from blocks with disjoint transactions never give one
      hash two different indexes. */
  lemma PairsConsistent(bs: seq<Block>, idx0: IndexTable, page: seq<Block>, chain: Chain, ps: seq<TxIndex>)
    requires WellFormed(bs, idx0)
    requires forall b :: b in page ==> b in bs
    requires forall k :: 0 <= k < |ps| ==> PairFrom(page, chain, ps[k])
    ensures Consistent(ps)
  {
    forall j, k | 0 <= j < |ps| && 0 <= k < |ps| && ps[j].hash == ps[k].hash
      ensures ps[j].index == ps[k].index
    {
      var h := ps[j].hash;
      var bj :| bj in page && h in bj.txs && bj.number in chain && FirstPosition(chain[bj.number], h, ps[j].index);
      var bk :| bk in page && h in bk.txs && bk.number in chain && FirstPosition(chain[bk.number], h, ps[k].index);
      FirstPositionUnique(chain[bj.number], h, ps[j].index, ps[k].index);
    }
  }

  /** The pairs of a page name stored transactions of the page. */
  lemma PairsKnown(bs: seq<Block>, idx0: IndexTable, idx: IndexTable, page: seq<Block>,
                   chain: Chain, ps: seq<TxIndex>)
    requires WellFormed(bs, idx0) && idx.Keys == idx0.Keys
    requires forall b :: b in page ==> b in bs
    requires PageIndexes(page, chain) == Ok(ps)
    ensures forall k :: 0 <= k < |ps| ==> ps[k].hash in idx
  {
    forall k | 0 <= k < |ps|
      ensures ps[k].hash in idx
    {
      AllTxsMembers(page, ps[k].hash);
    }
  }

  /** After the update phase of a page, every block of the page is
      reconciled. */
  lemma PageReconciled(bs: seq<Block>, idx0: IndexTable, idx: IndexTable, page: seq<Block>,
                       chain: Chain, ps: seq<TxIndex>)
    requires WellFormed(bs, idx0)
    requires forall b :: b in page ==> b in bs
    requires PageIndexes(page, chain) == Ok(ps)
    ensures AllReconciled(page, chain, Apply(idx, ps))
  {
    PairsConsistent(bs, idx0, page, chain, ps);
    ApplyWrites(idx, ps);
    forall b | b in page
      ensures Reconciled(b, chain, Apply(idx, ps))
    {
      BlockReconciled(bs, page, chain, ps, Apply(idx, ps), b);
    }
  }

  /** A page block whose pairs were all written is reconciled. */
  lemma BlockReconciled(bs: seq<Block>, page: seq<Block>, chain: Chain, ps: seq<TxIndex>,
                        idx': IndexTable, b: Block)
    requires TxsDisjoint(bs)
    requires forall c :: c in page ==> c in bs
    requires b in page
    requires PageIndexes(page, chain) == Ok(ps)
    requires forall k :: 0 <= k < |ps| ==> ps[k].hash in idx' && idx'[ps[k].hash] == Some(ps[k].index)
    ensures Reconciled(b, chain, idx')
  {
    assert Matches(b, chain);
    forall h | h in b.txs
      ensures h in idx' && idx'[h].Some? && FirstPosition(chain[b.number], h, idx'[h].value)
    {
      AllTxsMembers(page, h);
      var k :| 0 <= k < |AllTxs(page)| && AllTxs(page)[k] == h;
      assert ps[k].hash == h;
      var c :| c in page && h in c.txs && c.number in chain && FirstPosition(chain[c.number], h, ps[k].index);
      OwningBlock(bs, b, c, h);
    }
  }

  /** The update phase sets indexes and never clears one. */
  lemma StepDominates(bs: seq<Block>, idx0: IndexTable, idx: IndexTable, ps: seq<TxIndex>)
    requires Dominates(idx0, idx)
    requires forall k :: 0 <= k < |ps| ==> ps[k].hash in idx
    ensures Dominates(idx0, Apply(idx, ps)) && Dominates(idx, Apply(idx, ps))
    ensures Monotone(bs, idx, Apply(idx, ps))
  {
    ApplyFrame(idx, ps);
  }

  /** The blocks visited after a page are still in ascending order, and were
      all candidates from the start. */
  lemma StepVisited(bs: seq<Block>, idx0: IndexTable, idx: IndexTable, chain: Chain,
                    cursor: Option<int>, visited: seq<Block>, page: seq<Block>)
    requires Progress(bs, idx0, idx, chain, cursor, visited)
    requires page == Page(bs, idx, cursor, PageSize)
    ensures Ascending(visited + page)
    ensures FromCandidates(bs, idx0, visited + page)
  {
    PageFresh(bs, idx0, idx, chain, cursor, visited, page);
    var visited' := visited + page;
    forall j, k | 0 <= j < k < |visited'|
      ensures visited'[j].timestamp < visited'[k].timestamp
    {
      if k >= |visited| && j < |visited| {
        assert Eligible(page[k - |visited|], idx, cursor);
        assert visited[j].timestamp <= visited[|visited| - 1].timestamp;
      }
    }
    assert forall b :: b in visited' ==> b in visited || b in page;
  }

  /** Writing a page's pairs leaves earlier pages reconciled and changes no
      record outside the page. */
  lemma StepFrame(bs: seq<Block>, idx0: IndexTable, idx: IndexTable, chain: Chain,
                  visited: seq<Block>, page: seq<Block>, ps: seq<TxIndex>)
    requires WellFormed(bs, idx0)
    requires forall b :: b in visited ==> b in bs
    requires AllReconciled(visited, chain, idx)
    requires forall b :: b in page ==> b in bs && b !in visited
    requires WrittenOnly(idx0, idx, visited)
    requires AllReconciled(page, chain, Apply(idx, ps))
    requires |ps| == |AllTxs(page)|
    requires forall k :: 0 <= k < |ps| ==> ps[k].hash in idx && ps[k].hash == AllTxs(page)[k]
    ensures AllReconciled(visited + page, chain, Apply(idx, ps))
    ensures WrittenOnly(idx0, Apply(idx, ps), visited + page)
  {
    ApplyFrame(idx, ps);
    AllTxsAppend(visited, page);
    forall b, h | b in visited && h in b.txs
      ensures forall k :: 0 <= k < |ps| ==> ps[k].hash != h
    {
      AllTxsMembers(page, h);
    }
    assert forall b :: b in visited + page ==> b in visited || b in page;
  }

  /** After a page the new cursor has passed no remaining candidate: the
      page held every candidate up to its last block, and those are now
      reconciled. */
  lemma StepCursorBehind(bs: seq<Block>, idx: IndexTable, idx': IndexTable, chain: Chain,
                         cursor: Option<int>, page: seq<Block>)
    requires DistinctTimestamps(bs)
    requires CursorBehind(bs, idx, cursor)
    requires page == Page(bs, idx, cursor, PageSize) && page != []
    requires Monotone(bs, idx, idx')
    requires AllReconciled(page, chain, idx')
    ensures CursorBehind(bs, idx', Some(page[|page| - 1].timestamp))
  {
    forall b | b in bs && IsCandidate(b, idx')
      ensures After(b.timestamp, Some(page[|page| - 1].timestamp))
    {
      if b.timestamp <= page[|page| - 1].timestamp {
        PageComplete(bs, idx, cursor, PageSize, b);
      }
    }
  }

  /** Every initial candidate that the new cursor has passed was visited. */
  lemma StepPassedVisited(bs: seq<Block>, idx0: IndexTable, idx: IndexTable,
                          cursor: Option<int>, visited: seq<Block>, page: seq<Block>)
    requires WellFormed(bs, idx0)
    requires forall v :: v in visited ==> v in bs
    requires WrittenOnly(idx0, idx, visited)
    requires PassedVisited(bs, idx0, cursor, visited)
    requires page == Page(bs, idx, cursor, PageSize) && page != []
    ensures PassedVisited(bs, idx0, Some(page[|page| - 1].timestamp), visited + page)
  {
    forall b | b in bs && IsCandidate(b, idx0) && !After(b.timestamp, Some(page[|page| - 1].timestamp))
      ensures b in visited + page
    {
      if b !in visited {
        Untouched(bs, idx0, idx, visited, b);
        PageComplete(bs, idx, cursor, PageSize, b);
      }
    }
  }

  /** A reconciled block has no null index left, so it is no candidate. */
  lemma ReconciledNotCandidate(b: Block, chain: Chain, idx: IndexTable)
    requires Reconciled(b, chain, idx)
    ensures !IsCandidate(b, idx)
  {
  }

  /** Once a short page is written, nothing after its last block is
      eligible: the page held every eligible block, and those are no longer
      candidates. */
  lemma ShortPageExhausts(bs: seq<Block>, idx: IndexTable, idx': IndexTable, chain: Chain,
                          cursor: Option<int>, page: seq<Block>, b: Block)
    requires DistinctTimestamps(bs)
    requires page == Page(bs, idx, cursor, PageSize) && 0 < |page| < PageSize
    requires Monotone(bs, idx, idx')
    requires AllReconciled(page, chain, idx')
    requires b in bs
    ensures !Eligible(b, idx', Some(page[|page| - 1].timestamp))
  {
    if Eligible(b, idx', Some(page[|page| - 1].timestamp)) {
      assert Eligible(page[|page| - 1], idx, cursor);
      PageComplete(bs, idx, cursor, PageSize, b);
      ReconciledNotCandidate(b, chain, idx');
      assert false;
    }
  }

  /** A multiple of the page size plus one more page is a multiple still. */
  lemma FullPageStep(k: nat)
    requires k % PageSize == 0
    ensures (k + PageSize) % PageSize == 0
  {
  }

  /** After a full page the visited pages are still full; after a short one
      nothing after the new cursor is left. */
  lemma StepFullPages(bs: seq<Block>, idx: IndexTable, idx': IndexTable, chain: Chain,
                      cursor: Option<int>, visited: seq<Block>, page: seq<Block>)
    requires DistinctTimestamps(bs)
    requires FullPages(bs, idx, cursor, visited)
    requires page == Page(bs, idx, cursor, PageSize) && page != []
    requires Monotone(bs, idx, idx')
    requires AllReconciled(page, chain, idx')
    ensures FullPages(bs, idx', Some(page[|page| - 1].timestamp), visited + page)
  {
    var last := page[|page| - 1];
    if |page| < PageSize {
      forall b | b in bs
        ensures !Eligible(b, idx', Some(last.timestamp))
      {
        ShortPageExhausts(bs, idx, idx', chain, cursor, page, b);
      }
      PageEmpty(bs, idx', Some(last.timestamp), PageSize);
    } else {
      assert |visited + page| == |visited| + PageSize;
      FullPageStep(|visited|);
    }
  }

  /** Candidacy only shrinks, and a block that was a candidate and is now
      reconciled leaves the candidate set: the set strictly shrinks. */
  lemma CandidatesShrink(bs: seq<Block>, idx: IndexTable, idx': IndexTable, chain: Chain, b: Block)
    requires Monotone(bs, idx, idx')
    requires b in bs && IsCandidate(b, idx) && Reconciled(b, chain, idx')
    ensures Candidates(bs, idx') < Candidates(bs, idx)
  {
    assert b in Candidates(bs, idx);
    assert b !in Candidates(bs, idx');
  }

  /** After a page, the cursor is the timestamp of the page's last block. */
  lemma StepCursor(visited: seq<Block>, page: seq<Block>)
    requires page != []
    ensures CursorAt(Some(page[|page| - 1].timestamp), visited + page)
  {
    assert (visited + page)[|visited + page| - 1] == page[|page| - 1];
  }

  /** One page: the progress invariant carries over to the new index table,
      the cursor at the page's last block and the visited blocks extended by
      the page; the candidate set strictly shrinks; the counter grows by the
      number of pairs. */
  lemma StepProgress(bs: seq<Block>, idx0: IndexTable, idx: IndexTable, chain: Chain,
                     cursor: Option<int>, visited: seq<Block>, page: seq<Block>, ps: seq<TxIndex>)
    requires Progress(bs, idx0, idx, chain, cursor, visited)
    requires page == Page(bs, idx, cursor, PageSize) && page != []
    requires PageIndexes(page, chain) == Ok(ps)
    ensures forall k :: 0 <= k < |ps| ==> ps[k].hash in idx
    ensures Progress(bs, idx0, Apply(idx, ps), chain, Some(page[|page| - 1].timestamp), visited + page)
    ensures Candidates(bs, Apply(idx, ps)) < Candidates(bs, idx)
    ensures TxCount(visited + page) == TxCount(visited) + |ps|
  {
    var idx' := Apply(idx, ps);
    PageFresh(bs, idx0, idx, chain, cursor, visited, page);
    PairsKnown(bs, idx0, idx, page, chain, ps);
    StepDominates(bs, idx0, idx, ps);
    PageReconciled(bs, idx0, idx, page, chain, ps);
    StepVisited(bs, idx0, idx, chain, cursor, visited, page);
    StepFrame(bs, idx0, idx, chain, visited, page, ps);
    StepCursorBehind(bs, idx, idx', chain, cursor, page);
    StepPassedVisited(bs, idx0, idx, cursor, visited, page);
    StepCursor(visited, page);
    StepFullPages(bs, idx, idx', chain, cursor, visited, page);
    AllTxsAppend(visited, page);
    assert page[0] in page;
    CandidatesShrink(bs, idx, idx', chain, page[0]);
  }

  /** An empty page ends the run: no candidate is left, and the visited
      blocks are exactly the initial candidates. */
  lemma Finished(bs: seq<Block>, idx0: IndexTable, idx: IndexTable, chain: Chain,
                 cursor: Option<int>, visited: seq<Block>)
    requires Progress(bs, idx0, idx, chain, cursor, visited)
    requires Page(bs, idx, cursor, PageSize) == []
    ensures Candidates(bs, idx) == {}
    ensures (set b | b in visited) == Candidates(bs, idx0)
  {
    forall b | b in bs && IsCandidate(b, idx)
      ensures false
    {
      PageComplete(bs, idx, cursor, PageSize, b);
    }
    forall b | b in bs && IsCandidate(b, idx0)
      ensures b in visited
    {
      if b !in visited {
        Untouched(bs, idx0, idx, visited, b);
      }
    }
  }

  /** How a run that stopped on fault `e` ends, after the pages `visited`
      were written: they were whole pages of `PageSize` blocks, every
      initial candidate the cursor passed was visited,
      the failing page (the page query at the cursor) shares no block with
      the visited pages, and the fault is that of one of its blocks, an
      initial candidate that does not match the chain. */
  predicate AbortedAt(bs: seq<Block>, idx0: IndexTable, idx: IndexTable, chain: Chain,
                      visited: seq<Block>, e: Error)
  {
    var page := Page(bs, idx, CursorOf(visited), PageSize);
    && |visited| % PageSize == 0
    && PassedVisited(bs, idx0, CursorOf(visited), visited)
    && (forall c :: c in page ==> c !in visited)
    && exists b :: b in page && IsCandidate(b, idx0) && !Matches(b, chain) && ErrorFor(b, chain, e)
  }

  /** A page that fails to match aborts with the fault of one of its blocks,
      a block that was a candidate from the start; no block of the page was
      visited. */
  lemma Aborted(bs: seq<Block>, idx0: IndexTable, idx: IndexTable, chain: Chain,
                cursor: Option<int>, visited: seq<Block>, page: seq<Block>, e: Error)
    requires Progress(bs, idx0, idx, chain, cursor, visited)
    requires page == Page(bs, idx, cursor, PageSize)
    requires PageIndexes(page, chain) == Err(e)
    ensures exists b ::
      b in page && b in bs && IsCandidate(b, idx0) && b !in visited && !Matches(b, chain) && ErrorFor(b, chain, e)
    ensures forall c :: c in page ==> c !in visited
    ensures AbortedAt(bs, idx0, idx, chain, visited, e)
  {
    PageFresh(bs, idx0, idx, chain, cursor, visited, page);
    var b :| b in page && !Matches(b, chain) && ErrorFor(b, chain, e);
  }

  /** A candidate block of the store belongs to the candidate set. */
  lemma CandidateMember(bs: seq<Block>, idx: IndexTable, b: Block)
    requires b in bs && IsCandidate(b, idx)
    ensures b in Candidates(bs, idx)
  {
  }

  /** The run's stopping test read from the store's side: the first page of a
      run is empty exactly when no candidate is left. So a second run after a
      finished one updates nothing, and a run over a store with candidates
      does not stop at once. */
  lemma EmptyFirstPageIffDone(bs: seq<Block>, idx: IndexTable)
    ensures Page(bs, idx, None, PageSize) == [] <==> Candidates(bs, idx) == {}
  {
    if Candidates(bs, idx) == {} {
      match FirstAfter(bs, idx, None)
      case None =>
      case Some(m) =>
        CandidateMember(bs, idx, m);
        assert false;
    } else {
      var b :| b in Candidates(bs, idx);
      assert Eligible(b, idx, None);
    }
  }

  /** The source's cursor as written, at any page boundary of either loop:
      once the page ending at block `last` has been written, `last` is
      reconciled and the cursor is its timestamp. The next candidate after
      the cursor then heads the intended page, yet the as-written query
      leaves it out and moves past it. */
  lemma AsWrittenCursorSkips(bs: seq<Block>, idx: IndexTable, chain: Chain, last: Block, m: Block)
    requires DistinctTimestamps(bs)
    requires last in bs && Reconciled(last, chain, idx)
    requires FirstAfter(bs, idx, Some(last.timestamp)) == Some(m)
    ensures m == Page(bs, idx, Some(last.timestamp), PageSize)[0]
    ensures m !in PrismaPage(bs, idx, Some(last.timestamp), PageSize)
    ensures forall b :: b in PrismaPage(bs, idx, Some(last.timestamp), PageSize) ==> m.timestamp < b.timestamp
  {
    PrismaPageSkipsNextCandidate(bs, idx, last.timestamp, m, PageSize);
  }

  /** Between pages the store still meets its schema guarantees: the
      updates keep every record and change only indexes. */
  lemma ProgressWellFormed(bs: seq<Block>, idx0: IndexTable, idx: IndexTable, chain: Chain,
                           cursor: Option<int>, visited: seq<Block>)
    requires Progress(bs, idx0, idx, chain, cursor, visited)
    ensures WellFormed(bs, idx)
  {
  }

  /** The backfill run. Returns the total number of transactions updated
      (`totalTxsUpdated`) or the fault that aborted it; `visited` lists the
      blocks of the pages that were fully processed, in order. */
  method PopulateTxIndexes(store: Store, chain: Chain) returns (r: Result<nat>, ghost visited: seq<Block>)
    requires store.Valid()
    modifies store
    ensures store.Valid() && store.blocks == old(store.blocks)
    ensures store.index.Keys == old(store.index).Keys
    ensures Ascending(visited)
    ensures FromCandidates(old(store.blocks), old(store.index), visited)
    ensures AllReconciled(visited, chain, store.index)
    ensures WrittenOnly(old(store.index), store.index, visited)
    ensures r.Ok? ==> Candidates(store.blocks, store.index) == {}
    ensures r.Ok? ==> (set b | b in visited) == Candidates(old(store.blocks), old(store.index))
    ensures r.Ok? ==> r.value == TxCount(visited)
    ensures r.Err? ==>
      exists b :: b in old(store.blocks) && IsCandidate(b, old(store.index)) && b !in visited &&
        !Matches(b, chain) && ErrorFor(b, chain, r.error)
    ensures r.Err? ==> AbortedAt(old(store.blocks), old(store.index), store.index, chain, visited, r.error)
  {
    ghost var bs, idx0 := store.blocks, store.index;
    var cursor: Option<int> := None;
    var totalTxsUpdated: nat := 0;
    visited := [];
    // the source's `do { ... } while (cursor)`: after a non-empty page the
    // cursor is always set, so only an empty page or a fault ends the loop
    while true
      invariant store.blocks == bs
      invariant Progress(bs, idx0, store.index, chain, cursor, visited)
      invariant totalTxsUpdated == TxCount(visited)
      decreases Candidates(bs, store.index)
    {
      ProgressWellFormed(bs, idx0, store.index, chain, cursor, visited);
      var page := store.FindIncompletePage(cursor);
      if page == [] {
        Finished(bs, idx0, store.index, chain, cursor, visited);
        r := Ok(totalTxsUpdated);
        break;
      }
      var pairs := PageIndexes(page, chain);
      if pairs.Err? {
        Aborted(bs, idx0, store.index, chain, cursor, visited, page, pairs.error);
        r := Err(pairs.error);
        break;
      }
      StepProgress(bs, idx0, store.index, chain, cursor, visited, page, pairs.value);
      store.UpdateIndexes(pairs.value);
      totalTxsUpdated := totalTxsUpdated + |pairs.value|;
      visited := visited + page;
      cursor := Some(page[|page| - 1].timestamp);
    }
  }
}
