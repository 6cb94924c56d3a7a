/** The cursor loop of a paged metadata query. The key type is left generic. */
module Scans {
  import opened Rows

  datatype Page<K> = Page(rows: seq<Row<K>>, more: bool, next: bool)

  datatype Reply<K> = QueryFailed | Replied(page: Page<K>)

  /** A cursor is an index into the pages the querier would serve. */
  function Query<K>(pages: seq<Reply<K>>, cursor: nat): Reply<K> {
    if cursor < |pages| then pages[cursor] else QueryFailed
  }

  function RowsIn<K>(reply: Reply<K>): seq<Row<K>> {
    if reply.Replied? then reply.page.rows else []
  }

  ghost function RowsOf<K>(pages: seq<Reply<K>>): seq<Row<K>> {
    if pages == [] then []
    else RowsOf(pages[..|pages| - 1]) + RowsIn(pages[|pages| - 1])
  }

  /** The pages hold these rows, in whatever split, and say truthfully whether more follow. */
  ghost predicate Serves<K>(pages: seq<Reply<K>>, rows: seq<Row<K>>) {
    && pages != []
    && RowsOf(pages) == rows
    && forall i :: 0 <= i < |pages| ==> Truthful(pages[i], i < |pages| - 1)
  }

  ghost predicate Truthful<K>(reply: Reply<K>, more: bool) {
    reply.Replied? && reply.page.more == more && (more ==> reply.page.next)
  }

  datatype Outcome<K> = ScanFailed | CursorMissing | Scanned(entries: map<K, ListingEntry>, hasMore: bool)

  const ENTRY_QUERY_LIMIT := 500

  /** `drsListingQueryLimit`. */
  function QueryLimit(maxEntries: int): int {
    if maxEntries <= 0 || maxEntries > ENTRY_QUERY_LIMIT then ENTRY_QUERY_LIMIT else maxEntries
  }

  method AddPage<K>(keep: Row<K> -> bool, entries: map<K, ListingEntry>, rows: seq<Row<K>>)
    returns (r: map<K, ListingEntry>)
    ensures r == AddRows(keep, entries, rows)
  {
    r := entries;
    for i := 0 to |rows|
      invariant r == AddRows(keep, entries, rows[..i])
    {
      assert rows[..i + 1] == rows[..i] + [rows[i]];
      AddRowsAppend(keep, entries, rows[..i], [rows[i]]);
      r := AddRow(keep, r, rows[i]);
    }
    assert rows[..|rows|] == rows;
  }

  lemma RowsOfStep<K>(pages: seq<Reply<K>>, k: nat)
    requires k < |pages|
    ensures RowsOf(pages[..k + 1]) == RowsOf(pages[..k]) + RowsIn(pages[k])
  {
    assert pages[..k + 1][..k] == pages[..k];
  }

  /** The cursor loop of `queryDrsListingEntriesBounded` for one kind, which reads `taken` pages. */
  method ScanKind<K>(pages: seq<Reply<K>>, keep: Row<K> -> bool, maxEntries: int, entries: map<K, ListingEntry>)
    returns (r: Outcome<K>, ghost taken: nat)
    ensures r.ScanFailed? ==> taken <= |pages| && Query(pages, taken).QueryFailed?
    ensures r.ScanFailed? && taken > 0 ==> pages[taken - 1].Replied? && pages[taken - 1].page.more
    ensures r.CursorMissing? ==> 0 < taken <= |pages| && pages[taken - 1].Replied?
                                 && pages[taken - 1].page.more && !pages[taken - 1].page.next
    ensures r.Scanned? ==> 0 < taken <= |pages| && pages[taken - 1].Replied?
    ensures r.Scanned? ==> r.entries == AddRows(keep, entries, RowsOf(pages[..taken]))
    ensures r.Scanned? && r.hasMore ==> 0 < maxEntries <= |r.entries|
    ensures r.Scanned? && !r.hasMore ==> !pages[taken - 1].page.more
  {
    var found := entries;
    taken := 0;
    var cursor := 0;
    while true
      invariant taken == cursor <= |pages|
      invariant taken > 0 ==> pages[taken - 1].Replied? && pages[taken - 1].page.more
      invariant found == AddRows(keep, entries, RowsOf(pages[..taken]))
      decreases |pages| - cursor
    {
      var reply := Query(pages, cursor);
      if reply.QueryFailed? {
        return ScanFailed, taken;
      }
      var page := reply.page;
      AddRowsAppend(keep, entries, RowsOf(pages[..cursor]), page.rows);
      RowsOfStep(pages, cursor);
      found := AddPage(keep, found, page.rows);
      taken := taken + 1;
      if maxEntries > 0 && |found| > maxEntries {
        return Scanned(found, true), taken;
      }
      if !page.more {
        return Scanned(found, false), taken;
      }
      if !page.next {
        return CursorMissing, taken;
      }
      if maxEntries > 0 && |found| >= maxEntries {
        return Scanned(found, true), taken;
      }
      cursor := cursor + 1;
    }
  }

  lemma {:induction false} RowsOfPrefix<K>(pages: seq<Reply<K>>, k: nat)
    requires k <= |pages|
    ensures RowsOf(pages[..k]) <= RowsOf(pages)
    decreases |pages| - k
  {
    if k == |pages| {
      assert pages[..k] == pages;
    } else {
      RowsOfStep(pages, k);
      RowsOfPrefix(pages, k + 1);
    }
  }

  /** What the loop leaves behind when the querier serves `rows`: it never fails, and stops before
      the end only with enough entries. */
  ghost predicate KindResult<K>(r: Outcome<K>, rows: seq<Row<K>>, keep: Row<K> -> bool, maxEntries: int,
                                entries: map<K, ListingEntry>, read: nat)
  {
    && r.Scanned?
    && read <= |rows|
    && r.entries == AddRows(keep, entries, rows[..read])
    && (r.hasMore ==> 0 < maxEntries <= |r.entries|)
    && (!r.hasMore ==> read == |rows|)
  }

  method ScanServed<K>(pages: seq<Reply<K>>, ghost rows: seq<Row<K>>, keep: Row<K> -> bool,
                       maxEntries: int, entries: map<K, ListingEntry>)
    returns (r: Outcome<K>, ghost read: nat)
    ensures Serves(pages, rows) ==> KindResult(r, rows, keep, maxEntries, entries, read)
    ensures r.Scanned? && r.hasMore ==> maxEntries > 0
  {
    ghost var taken;
    r, taken := ScanKind(pages, keep, maxEntries, entries);
    read := 0;
    if Serves(pages, rows) {
      assert taken < |pages| ==> Truthful(pages[taken], taken < |pages| - 1);
      assert 0 < taken <= |pages| ==> Truthful(pages[taken - 1], taken - 1 < |pages| - 1);
      RowsOfPrefix(pages, taken);
      read := |RowsOf(pages[..taken])|;
      assert rows[..read] == RowsOf(pages[..taken]);
      assert pages[..|pages|] == pages;
    }
  }
}
