/** Matching stored transactions against the chain node's block contents:
    `findIndex` over the canonical hash list, the per-block `map` that throws
    on a missing hash, and the flattening of a page's results. */
module Matching {
  import opened Types

  /** `i` is the zero-based position of the first occurrence of `h` in `s`. */
  predicate FirstPosition(s: seq<Hash>, h: Hash, i: int) {
    0 <= i < |s| && s[i] == h && h !in s[..i]
  }

  /** A hash has at most one first position in a list. */
  lemma FirstPositionUnique(s: seq<Hash>, h: Hash, i: int, j: int)
    requires FirstPosition(s, h, i) && FirstPosition(s, h, j)
    ensures i == j
  {
  }

  /** `Array.prototype.findIndex` with the test `txHash === hash`: the first
      position of `h` in `s`, or -1 when `h` does not occur. */
  function FindIndex(s: seq<Hash>, h: Hash): (r: int)
    ensures r == -1 <==> h !in s
    ensures r != -1 ==> FirstPosition(s, h, r)
  {
    if s == [] then -1
    else if s[0] == h then 0
    else
      var r := FindIndex(s[1..], h);
      assert s == [s[0]] + s[1..];
      if r == -1 then -1
      else
        assert s[..r + 1] == [s[0]] + s[1..][..r];
        r + 1
  }

  /** Every hash of `txs` occurs in `chainTxs`. */
  predicate AllIn(txs: seq<Hash>, chainTxs: seq<Hash>) {
    forall h :: h in txs ==> h in chainTxs
  }

  /** The per-block `dbBlock.transactions.map(...)`: pairs each stored hash,
      in stored order, with its position in the chain block's list, and
      throws on the first stored hash that the chain block does not list. */
  function BlockIndexes(txs: seq<Hash>, chainTxs: seq<Hash>, number: nat): (r: Result<seq<TxIndex>>)
    ensures r.Ok? <==> AllIn(txs, chainTxs)
    ensures r.Ok? ==> |r.value| == |txs|
    ensures r.Ok? ==> forall k :: 0 <= k < |txs| ==>
      r.value[k].hash == txs[k] && FirstPosition(chainTxs, txs[k], r.value[k].index)
    ensures r.Err? ==> r.error.TxNotFound? && r.error.number == number
    ensures r.Err? ==>
      exists k :: 0 <= k < |txs| && txs[k] == r.error.hash && txs[k] !in chainTxs && AllIn(txs[..k], chainTxs)
  {
    if txs == [] then Ok([])
    else
      var i := FindIndex(chainTxs, txs[0]);
      if i == -1 then
        assert txs[..0] == [];
        Err(TxNotFound(txs[0], number))
      else
        match BlockIndexes(txs[1..], chainTxs, number)
        case Err(e) =>
          MissingHashStep(txs, chainTxs, e.hash);
          Err(e)
        case Ok(ps) =>
          assert txs == [txs[0]] + txs[1..];
          Ok([TxIndex(txs[0], i)] + ps)
  }

  /** A missing hash found after a matched first hash is the first missing
      hash of the whole list. */
  lemma MissingHashStep(txs: seq<Hash>, chainTxs: seq<Hash>, h: Hash)
    requires txs != [] && txs[0] in chainTxs
    requires exists k :: 0 <= k < |txs[1..]| && txs[1..][k] == h && h !in chainTxs && AllIn(txs[1..][..k], chainTxs)
    ensures exists k :: 0 <= k < |txs| && txs[k] == h && h !in chainTxs && AllIn(txs[..k], chainTxs)
    ensures !AllIn(txs, chainTxs)
  {
    var k :| 0 <= k < |txs[1..]| && txs[1..][k] == h && h !in chainTxs && AllIn(txs[1..][..k], chainTxs);
    assert txs[..k + 1] == [txs[0]] + txs[1..][..k];
    assert txs[k + 1] == h;
  }

  /** The stored transaction hashes of a page, block after block (`flat()`). */
  function AllTxs(page: seq<Block>): seq<Hash> {
    if page == [] then [] else page[0].txs + AllTxs(page[1..])
  }

  /** The sum of the transaction counts of the page's blocks. */
  function TxCount(page: seq<Block>): nat {
    if page == [] then 0 else |page[0].txs| + TxCount(page[1..])
  }

  /** The chain serves the block's height and lists every stored hash of it. */
  predicate Matches(b: Block, chain: Chain) {
    b.number in chain && AllIn(b.txs, chain[b.number])
  }

  /** A pair is the position of its hash in the chain list of a page block
      that stores that hash. */
  predicate PairFrom(page: seq<Block>, chain: Chain, p: TxIndex) {
    exists b :: b in page && p.hash in b.txs && b.number in chain &&
      FirstPosition(chain[b.number], p.hash, p.index)
  }

  /** The fault reported for a block that does not match the chain. */
  predicate ErrorFor(b: Block, chain: Chain, e: Error) {
    if b.number !in chain then e == BlockNotFound(b.number)
    else e.TxNotFound? && e.number == b.number && e.hash in b.txs && e.hash !in chain[b.number]
  }

  /** `(await Promise.all(txPromises)).flat()`: fetch each page block from
      the chain, match its stored hashes, and concatenate the pairs in page
      order. The first block that fails (in page order) aborts with its
      fault, and then no pair at all is produced. */
  function PageIndexes(page: seq<Block>, chain: Chain): (r: Result<seq<TxIndex>>)
    ensures r.Ok? <==> forall b :: b in page ==> Matches(b, chain)
    ensures r.Ok? ==> |r.value| == |AllTxs(page)| == TxCount(page)
    ensures r.Ok? ==> forall k :: 0 <= k < |r.value| ==>
      r.value[k].hash == AllTxs(page)[k] && PairFrom(page, chain, r.value[k])
    ensures r.Err? ==> exists b :: b in page && !Matches(b, chain) && ErrorFor(b, chain, r.error)
  {
    if page == [] then Ok([])
    else
      var b := page[0];
      if b.number !in chain then
        assert b in page && !Matches(b, chain);
        Err(BlockNotFound(b.number))
      else
        match BlockIndexes(b.txs, chain[b.number], b.number)
        case Err(e) =>
          assert b in page && !Matches(b, chain);
          Err(e)
        case Ok(ps) =>
          match PageIndexes(page[1..], chain)
          case Err(e) =>
            assert forall c :: c in page[1..] ==> c in page;
            Err(e)
          case Ok(rest) =>
            PageIndexesConcat(page, chain, ps, rest);
            Ok(ps + rest)
  }

  /** The step of PageIndexes that prefixes the first block's pairs. */
  lemma PageIndexesConcat(page: seq<Block>, chain: Chain, ps: seq<TxIndex>, rest: seq<TxIndex>)
    requires page != [] && page[0].number in chain
    requires BlockIndexes(page[0].txs, chain[page[0].number], page[0].number) == Ok(ps)
    requires forall b :: b in page[1..] ==> Matches(b, chain)
    requires |rest| == |AllTxs(page[1..])| == TxCount(page[1..])
    requires forall k :: 0 <= k < |rest| ==> rest[k].hash == AllTxs(page[1..])[k] && PairFrom(page[1..], chain, rest[k])
    ensures forall b :: b in page ==> Matches(b, chain)
    ensures |ps + rest| == |AllTxs(page)| == TxCount(page)
    ensures forall k :: 0 <= k < |ps + rest| ==>
      (ps + rest)[k].hash == AllTxs(page)[k] && PairFrom(page, chain, (ps + rest)[k])
  {
    var b := page[0];
    assert forall c :: c in page ==> c == b || c in page[1..];
    forall k | 0 <= k < |ps + rest|
      ensures (ps + rest)[k].hash == AllTxs(page)[k] && PairFrom(page, chain, (ps + rest)[k])
    {
      if k < |ps| {
        assert b in page;
      } else {
        var p := rest[k - |ps|];
        var c :| c in page[1..] && p.hash in c.txs && c.number in chain &&
          FirstPosition(chain[c.number], p.hash, p.index);
        assert c in page;
      }
    }
  }

  /** A hash stored in a page block is among the page's hashes, and only
      those are. */
  lemma {:induction false} AllTxsMembers(page: seq<Block>, h: Hash)
    ensures h in AllTxs(page) <==> exists b :: b in page && h in b.txs
  {
    if page != [] {
      AllTxsMembers(page[1..], h);
      assert forall c :: c in page ==> c == page[0] || c in page[1..];
    }
  }

  /** Concatenating pages concatenates their hashes and adds their counts. */
  lemma {:induction false} AllTxsAppend(p: seq<Block>, q: seq<Block>)
    ensures AllTxs(p + q) == AllTxs(p) + AllTxs(q)
    ensures TxCount(p + q) == TxCount(p) + TxCount(q)
  {
    if p == [] {
      assert p + q == q;
    } else {
      assert (p + q)[1..] == p[1..] + q;
      AllTxsAppend(p[1..], q);
    }
  }

  /** The worked example: blocks #100 storing [A, B] and #101 storing [C],
      the chain listing [A, B] and [C], give A -> 0, B -> 1, C -> 0. */
  lemma ExampleIndexes()
    ensures
      var page := [Block("h100", 100, 1, ["A", "B"], []), Block("h101", 101, 2, ["C"], [])];
      var chain := map[100 := ["A", "B"], 101 := ["C"]];
      PageIndexes(page, chain) == Ok([TxIndex("A", 0), TxIndex("B", 1), TxIndex("C", 0)])
  {
    var ab: seq<Hash> := ["A", "B"];
    var bb: seq<Hash> := ["B"];
    var c: seq<Hash> := ["C"];
    var none: seq<Hash> := [];
    assert ab[1..] == bb && bb[1..] == none && c[1..] == none;
    assert FindIndex(ab, "A") == 0;
    assert FindIndex(ab, "B") == 1;
    assert FindIndex(c, "C") == 0;
    assert BlockIndexes(none, ab, 100) == Ok([]);
    assert BlockIndexes(bb, ab, 100).Ok?;
    assert BlockIndexes(bb, ab, 100).value == [TxIndex("B", 1)];
    assert BlockIndexes(ab, ab, 100).Ok?;
    assert BlockIndexes(ab, ab, 100).value == [TxIndex("A", 0), TxIndex("B", 1)];
    assert BlockIndexes(c, c, 101).Ok?;
    assert BlockIndexes(c, c, 101).value == [TxIndex("C", 0)];
    var b100 := Block("h100", 100, 1, ab, []);
    var b101 := Block("h101", 101, 2, c, []);
    var chain: Chain := map[100 := ab, 101 := c];
    var page := [b100, b101];
    var tail := [b101];
    var empty: seq<Block> := [];
    assert page[1..] == tail && tail[1..] == empty;
    assert chain[100] == ab && chain[101] == c;
    assert PageIndexes(empty, chain) == Ok([]);
    assert PageIndexes(tail, chain).Ok?;
    assert PageIndexes(tail, chain).value == [TxIndex("C", 0)];
    assert PageIndexes(page, chain).Ok?;
    assert PageIndexes(page, chain).value == [TxIndex("A", 0), TxIndex("B", 1), TxIndex("C", 0)];
  }
}
