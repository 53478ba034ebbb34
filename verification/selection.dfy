/** The candidate query of the backfill: which stored blocks still need
    transaction indexes, and how one page of them is chosen. */
module Selection {
  import opened Types

  /** The `take` of the page query. */
  const PageSize: nat := 50

  /** A timestamp lies strictly after the cursor; no cursor admits all. */
  predicate After(t: int, cursor: Option<int>) {
    cursor.None? || cursor.value < t
  }

  /** At least one of the block's transaction records has a null `index`. */
  predicate HasNullIndex(b: Block, idx: IndexTable) {
    exists h :: h in b.txs && h in idx && idx[h].None?
  }

  /** The `where` filter: some transaction with null index, and no
      transaction-fork marker at all. */
  predicate IsCandidate(b: Block, idx: IndexTable) {
    b.forks == [] && HasNullIndex(b, idx)
  }

  /** A candidate that the cursor has not yet passed. */
  predicate Eligible(b: Block, idx: IndexTable, cursor: Option<int>) {
    IsCandidate(b, idx) && After(b.timestamp, cursor)
  }

  /** All candidate blocks of the store. */
  function Candidates(bs: seq<Block>, idx: IndexTable): set<Block> {
    set b | b in bs && IsCandidate(b, idx)
  }

  /** Different blocks of the store have different timestamps. */
  predicate DistinctTimestamps(bs: seq<Block>) {
    forall b1, b2 :: b1 in bs && b2 in bs && b1 != b2 ==> b1.timestamp != b2.timestamp
  }

  /** Strictly ascending by timestamp. */
  predicate Ascending(p: seq<Block>) {
    forall j, k :: 0 <= j < k < |p| ==> p[j].timestamp < p[k].timestamp
  }

  /** The first row of `orderBy: { timestamp: "asc" }` after the cursor: an
      eligible block whose timestamp is least among the eligible ones. */
  function FirstAfter(bs: seq<Block>, idx: IndexTable, cursor: Option<int>): (r: Option<Block>)
    ensures r.Some? ==> r.value in bs && Eligible(r.value, idx, cursor)
    ensures r.Some? ==> forall b :: b in bs && Eligible(b, idx, cursor) ==> r.value.timestamp <= b.timestamp
    ensures r.None? ==> forall b :: b in bs ==> !Eligible(b, idx, cursor)
  {
    if bs == [] then None
    else
      var rest := FirstAfter(bs[1..], idx, cursor);
      assert forall b :: b in bs ==> b == bs[0] || b in bs[1..];
      if Eligible(bs[0], idx, cursor) && (rest.None? || bs[0].timestamp <= rest.value.timestamp)
      then Some(bs[0])
      else rest
  }

  /** The page query `findMany({ where, orderBy: timestamp asc, take: n })`
      started strictly after the cursor: up to `n` eligible blocks, each the
      least-timestamp eligible block after its predecessor. */
  function Page(bs: seq<Block>, idx: IndexTable, cursor: Option<int>, n: nat): (p: seq<Block>)
    decreases n
    ensures |p| <= n
    ensures forall k :: 0 <= k < |p| ==> p[k] in bs && Eligible(p[k], idx, cursor)
    ensures Ascending(p)
  {
    if n == 0 then []
    else
      match FirstAfter(bs, idx, cursor)
      case None => []
      case Some(m) =>
        var rest := Page(bs, idx, Some(m.timestamp), n - 1);
        assert forall k :: 0 <= k < |rest| ==> m.timestamp < rest[k].timestamp;
        [m] + rest
  }

  /** `p` skips no eligible block: every eligible block up to the last
      block of `p` is in `p`, and when `p` is shorter than a full page, every
      eligible block is. */
  predicate CompletePrefix(bs: seq<Block>, idx: IndexTable, cursor: Option<int>, n: nat, p: seq<Block>) {
    forall b {:trigger b in p} ::
      b in bs && Eligible(b, idx, cursor) &&
      (|p| < n || (|p| > 0 && b.timestamp <= p[|p| - 1].timestamp))
      ==> b in p
  }

  /** Nothing eligible is skipped: a page is a complete prefix of the
      eligible blocks in timestamp order, and a page shorter than asked for
      holds all of them (in particular an empty page means no candidate is
      left after the cursor). */
  lemma {:induction false} PageComplete(bs: seq<Block>, idx: IndexTable, cursor: Option<int>, n: nat, b: Block)
    requires DistinctTimestamps(bs)
    requires b in bs && Eligible(b, idx, cursor)
    requires var p := Page(bs, idx, cursor, n);
      |p| < n || (|p| > 0 && b.timestamp <= p[|p| - 1].timestamp)
    ensures b in Page(bs, idx, cursor, n)
    decreases n
  {
    var first := FirstAfter(bs, idx, cursor);
    if n > 0 && first.Some? {
      var m := first.value;
      if b != m {
        var rest := Page(bs, idx, Some(m.timestamp), n - 1);
        assert Page(bs, idx, cursor, n) == [m] + rest;
        assert m.timestamp < b.timestamp;
        PageComplete(bs, idx, Some(m.timestamp), n - 1, b);
      }
    }
  }

  /** A query page skips no eligible block. */
  lemma PageIsCompletePrefix(bs: seq<Block>, idx: IndexTable, cursor: Option<int>, n: nat)
    requires DistinctTimestamps(bs)
    ensures CompletePrefix(bs, idx, cursor, n, Page(bs, idx, cursor, n))
  {
    var p := Page(bs, idx, cursor, n);
    forall b {:trigger b in p} | b in bs && Eligible(b, idx, cursor) &&
      (|p| < n || (|p| > 0 && b.timestamp <= p[|p| - 1].timestamp))
      ensures b in p
    {
      PageComplete(bs, idx, cursor, n, b);
    }
  }

  /** The same query AS WRITTEN with `take: n` (50 in the source) and
      `cursor: { timestamp: c }, skip: 1`:
      Prisma locates the cursor row by its timestamp without applying the
      `where` filter, keeps the filtered rows ordered at or after it
      (timestamp >= c, i.e. > c - 1 on integer timestamps), and then skips
      the first of them. */
  function PrismaPage(bs: seq<Block>, idx: IndexTable, cursor: Option<int>, n: nat): seq<Block> {
    match cursor
    case None => Page(bs, idx, None, n)
    case Some(c) =>
      var rows := Page(bs, idx, Some(c - 1), n + 1);
      if rows == [] then [] else rows[1..]
  }

  /** When the cursor block is no longer a candidate (the case after every
      processed page), the as-written query drops the first candidate after
      the cursor: it is missing from the page and every block of the page
      lies after it, so the next cursor passes it for good. The intended
      page (strictly after the cursor) starts with it. */
  lemma PrismaPageSkipsNextCandidate(bs: seq<Block>, idx: IndexTable, c: int, m: Block, n: nat)
    requires forall b :: b in bs && IsCandidate(b, idx) ==> b.timestamp != c
    requires FirstAfter(bs, idx, Some(c)) == Some(m)
    ensures m !in PrismaPage(bs, idx, Some(c), n)
    ensures forall b :: b in PrismaPage(bs, idx, Some(c), n) ==> m.timestamp < b.timestamp
    ensures n > 0 ==> Page(bs, idx, Some(c), n)[0] == m
  {
    InclusiveHead(bs, idx, c, m, n + 1);
    if n > 0 {
      PageHead(bs, idx, Some(c), m, n);
    }
  }

  /** A page is empty exactly when it was asked for no block or nothing
      after the cursor is eligible. */
  lemma {:induction false} PageEmpty(bs: seq<Block>, idx: IndexTable, cursor: Option<int>, n: nat)
    ensures Page(bs, idx, cursor, n) == [] <==> n == 0 || forall b :: b in bs ==> !Eligible(b, idx, cursor)
  {
    if n > 0 && FirstAfter(bs, idx, cursor).Some? {
      assert Page(bs, idx, cursor, n)[0] == FirstAfter(bs, idx, cursor).value;
    }
  }

  /** A non-empty page starts with the first eligible block. */
  lemma PageHead(bs: seq<Block>, idx: IndexTable, cursor: Option<int>, m: Block, n: nat)
    requires n > 0 && FirstAfter(bs, idx, cursor) == Some(m)
    ensures Page(bs, idx, cursor, n) != [] && Page(bs, idx, cursor, n)[0] == m
  {
  }

  /** With no candidate at the cursor's own timestamp, a query that keeps
      rows at or after the cursor starts with a block of the next candidate's
      timestamp, and the rest of its rows lie strictly after it. */
  lemma InclusiveHead(bs: seq<Block>, idx: IndexTable, c: int, m: Block, n: nat)
    requires forall b :: b in bs && IsCandidate(b, idx) ==> b.timestamp != c
    requires FirstAfter(bs, idx, Some(c)) == Some(m)
    requires n > 0
    ensures var rows := Page(bs, idx, Some(c - 1), n);
      rows != [] && rows[0].timestamp == m.timestamp &&
      forall b :: b in rows[1..] ==> m.timestamp < b.timestamp
  {
    var rows := Page(bs, idx, Some(c - 1), n);
    // m is eligible from c - 1 on, so the inclusive query is not empty
    assert Eligible(m, idx, Some(c - 1));
    var first := FirstAfter(bs, idx, Some(c - 1));
    assert first.Some?;
    // the inclusive query starts at a block with m's timestamp
    assert first.value.timestamp != c;
    assert Eligible(first.value, idx, Some(c));
    assert first.value.timestamp == m.timestamp;
    assert rows[0] == first.value;
    forall b | b in rows[1..] ensures rows[0].timestamp < b.timestamp {
      var k :| 0 <= k < |rows[1..]| && rows[1..][k] == b;
      assert rows[k + 1] == b;
    }
  }
}
