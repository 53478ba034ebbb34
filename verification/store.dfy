/** The store as the backfill sees it: block records and the `index` column
    of the transaction records, updated one record at a time. */
module TxStore {
  import opened Types
  import opened Selection

  /** No hash occurs in both lists. */
  predicate Disjoint(s: seq<Hash>, t: seq<Hash>) {
    forall h :: h in s ==> h !in t
  }

  /** The store's schema guarantees as the model needs them: every
      transaction belongs to exactly one block (different blocks list
      disjoint transactions), every listed transaction has a record, and the
      timestamp cursor is a total key (different blocks, different
      timestamps). */
  predicate WellFormed(bs: seq<Block>, idx: IndexTable) {
    && DistinctTimestamps(bs)
    && TxsDisjoint(bs)
    && (forall b, h :: b in bs && h in b.txs ==> h in idx)
  }

  /** Different blocks list disjoint transactions. */
  predicate TxsDisjoint(bs: seq<Block>) {
    forall b1, b2 :: b1 in bs && b2 in bs && b1 != b2 ==> Disjoint(b1.txs, b2.txs)
  }

  /** A transaction belongs to one block only. */
  lemma OwningBlock(bs: seq<Block>, b1: Block, b2: Block, h: Hash)
    requires TxsDisjoint(bs)
    requires b1 in bs && b2 in bs && h in b1.txs && h in b2.txs
    ensures b1 == b2
  {
  }

  /** The index table after the updates `ps`, applied one after another. */
  function Apply(idx: IndexTable, ps: seq<TxIndex>): IndexTable {
    if ps == [] then idx
    else Apply(idx, ps[..|ps| - 1])[ps[|ps| - 1].hash := Some(ps[|ps| - 1].index)]
  }

  /** Pairs that name the same hash carry the same index. */
  predicate Consistent(ps: seq<TxIndex>) {
    forall j, k :: 0 <= j < |ps| && 0 <= k < |ps| && ps[j].hash == ps[k].hash ==> ps[j].index == ps[k].index
  }

  /** Updates by existing hashes touch only the `index` of the named
      records: no record appears or disappears, a record no pair names keeps
      its value, and a set index is never reset to null. */
  lemma {:induction false} ApplyFrame(idx: IndexTable, ps: seq<TxIndex>)
    requires forall k :: 0 <= k < |ps| ==> ps[k].hash in idx
    ensures Apply(idx, ps).Keys == idx.Keys
    ensures forall h :: h in idx && (forall k :: 0 <= k < |ps| ==> ps[k].hash != h) ==> Apply(idx, ps)[h] == idx[h]
    ensures forall h :: h in idx && idx[h].Some? ==> Apply(idx, ps)[h].Some?
  {
    if ps != [] {
      ApplyFrame(idx, ps[..|ps| - 1]);
    }
  }

  /** After consistent updates every named record holds its pair's index. */
  lemma {:induction false} ApplyWrites(idx: IndexTable, ps: seq<TxIndex>)
    requires Consistent(ps)
    ensures forall k :: 0 <= k < |ps| ==> ps[k].hash in Apply(idx, ps) && Apply(idx, ps)[ps[k].hash] == Some(ps[k].index)
  {
    if ps != [] {
      var init := ps[..|ps| - 1];
      assert Consistent(init) by {
        forall j, k | 0 <= j < |init| && 0 <= k < |init| && init[j].hash == init[k].hash
          ensures init[j].index == init[k].index
        {
          assert init[j] == ps[j] && init[k] == ps[k];
        }
      }
      ApplyWrites(idx, init);
      forall k | 0 <= k < |ps|
        ensures ps[k].hash in Apply(idx, ps) && Apply(idx, ps)[ps[k].hash] == Some(ps[k].index)
      {
        if k < |ps| - 1 {
          assert ps[k] == init[k];
        }
      }
    }
  }

  /** Re-running the updates with the values already stored changes
      nothing: recomputing indexes from unchanged chain data is harmless. */
  lemma {:induction false} ApplyIdempotent(idx: IndexTable, ps: seq<TxIndex>)
    requires forall k :: 0 <= k < |ps| ==> ps[k].hash in idx && idx[ps[k].hash] == Some(ps[k].index)
    ensures Apply(idx, ps) == idx
  {
    if ps != [] {
      ApplyIdempotent(idx, ps[..|ps| - 1]);
    }
  }

  /** The store's block and transaction tables. */
  class Store {
    var blocks: seq<Block>
    var index: IndexTable

    ghost predicate Valid()
      reads this
    {
      WellFormed(blocks, index)
    }

    constructor (blocks: seq<Block>, index: IndexTable)
      requires WellFormed(blocks, index)
      ensures Valid() && this.blocks == blocks && this.index == index
    {
      this.blocks := blocks;
      this.index := index;
    }

    /** The candidate page query (read-only): at most `PageSize` eligible
        blocks in ascending timestamp order, holding every eligible block up
        to its last one, and every eligible block at all when it is short. */
    method FindIncompletePage(cursor: Option<int>) returns (page: seq<Block>)
      requires Valid()
      ensures page == Page(blocks, index, cursor, PageSize)
      ensures |page| <= PageSize && Ascending(page)
      ensures forall k :: 0 <= k < |page| ==> page[k] in blocks && Eligible(page[k], index, cursor)
      ensures CompletePrefix(blocks, index, cursor, PageSize, page)
    {
      page := Page(blocks, index, cursor, PageSize);
      PageIsCompletePrefix(blocks, index, cursor, PageSize);
    }

    /** `prisma.transaction.update({ where: { hash }, data: { index } })`:
        sets the `index` of the record with that hash and nothing else. */
    method UpdateIndex(hash: Hash, i: nat)
      requires Valid() && hash in index
      modifies this
      ensures Valid() && blocks == old(blocks)
      ensures index == old(index)[hash := Some(i)]
    {
      index := index[hash := Some(i)];
    }

    /** The update phase of one page: every pair applied in order. */
    method UpdateIndexes(ps: seq<TxIndex>)
      requires Valid()
      requires forall k :: 0 <= k < |ps| ==> ps[k].hash in index
      modifies this
      ensures Valid() && blocks == old(blocks)
      ensures index.Keys == old(index).Keys
      ensures index == Apply(old(index), ps)
    {
      var i := 0;
      while i < |ps|
        invariant 0 <= i <= |ps|
        invariant Valid() && blocks == old(blocks)
        invariant index.Keys == old(index).Keys
        invariant index == Apply(old(index), ps[..i])
      {
        UpdateIndex(ps[i].hash, ps[i].index);
        assert ps[..i + 1][..i] == ps[..i];
        i := i + 1;
      }
      assert ps[..|ps|] == ps;
    }
  }
}
