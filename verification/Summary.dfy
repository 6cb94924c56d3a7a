/** The storage summary: logical data objects with a DRS id, each counted and sized once, over all
    pages of a catalogue query. */
module Summary {
  import opened Options
  import opened Integers
  import opened Decimals
  import opened Text
  import Avus

  // ---------------------------------------------------------------- one row

  /** `parseCatalogInt64`. */
  function ParseCatalogInt64(s: string): (r: Option<Int64>)
    ensures r.Some? ==> r.value >= 0
  {
    var parsed := ParseInt64(TrimSpace(s));
    if parsed.Some? && parsed.value < 0 then None else parsed
  }

  /** One row of the query; a column may be too short to hold a cell for it. */
  datatype CatalogRow = CatalogRow(
    dataID: Option<string>, size: Option<string>, avuValue: Option<string>, avuUnits: Option<string>)

  /** `isValidDrsIDAVUValue`. */
  predicate IsValidId(value: string, units: string) {
    TrimSpace(value) != "" && (TrimSpace(units) == "" || EqualFold(TrimSpace(units), Avus.DRS_UNIT))
  }

  function Parse(cell: Option<string>): Option<Int64> {
    if cell.None? then None else ParseCatalogInt64(cell.value)
  }

  /** A row as the loop reads it: not to be read, passed over, or about one data object, whose size may
      turn out not to be readable. */
  datatype Reading = Unreadable | PassedOver | About(dataID: Int64, size: Option<Int64>)

  function Read(row: CatalogRow): (r: Reading)
    ensures r.About? && r.size.Some? ==> r.size.value >= 0
  {
    if row.avuValue.None? || row.avuUnits.None? then Unreadable
    else if !IsValidId(row.avuValue.value, row.avuUnits.value) then PassedOver
    else
      var id := Parse(row.dataID);
      if id.None? then Unreadable else About(id.value, Parse(row.size))
  }

  // ---------------------------------------------------------------- what the rows come to

  /** The data objects that some row is about. */
  ghost function DataIds(rs: seq<Reading>): set<int> {
    set i | 0 <= i < |rs| && rs[i].About? :: rs[i].dataID
  }

  /** The size that the first row about a data object gives it. */
  ghost function FirstSize(rs: seq<Reading>): int -> int {
    id => FirstSizeOf(rs, id)
  }

  ghost function FirstSizeOf(rs: seq<Reading>, id: int): int {
    if rs == [] then 0
    else if rs[0].About? && rs[0].dataID == id then (if rs[0].size.Some? then rs[0].size.value else 0)
    else FirstSizeOf(rs[1..], id)
  }

  ghost function SumOver(f: int -> int, s: set<int>): int
    decreases s
  {
    if s == {} then 0 else f(Pick(s)) + SumOver(f, s - {Pick(s)})
  }

  ghost function Pick<T>(s: set<T>): (x: T)
    requires s != {}
    ensures x in s
  {
    var x :| x in s;
    x
  }

  lemma {:induction false} SumWithout(f: int -> int, s: set<int>, y: int)
    requires y in s
    ensures SumOver(f, s) == f(y) + SumOver(f, s - {y})
    decreases s
  {
    var x := Pick(s);
    if x != y {
      SumWithout(f, s - {x}, y);
      SumWithout(f, s - {y}, x);
      assert s - {x} - {y} == s - {y} - {x};
    }
  }

  lemma {:induction false} SumSame(f: int -> int, g: int -> int, s: set<int>)
    requires forall x :: x in s ==> f(x) == g(x)
    ensures SumOver(f, s) == SumOver(g, s)
    decreases s
  {
    if s != {} {
      var x := Pick(s);
      SumWithout(g, s, x);
      SumSame(f, g, s - {x});
    }
  }

  lemma {:induction false} SumNotNegative(f: int -> int, s: set<int>)
    requires forall x :: x in s ==> f(x) >= 0
    ensures SumOver(f, s) >= 0
    decreases s
  {
    if s != {} {
      var x := Pick(s);
      SumNotNegative(f, s - {x});
    }
  }

  /** A row does not stop the loop: it is read, and if it is the first about its object, so is its size. */
  ghost predicate Fine(rs: seq<Reading>, i: nat)
    requires i < |rs|
  {
    !rs[i].Unreadable? && (rs[i].About? && rs[i].dataID !in DataIds(rs[..i]) ==> rs[i].size.Some?)
  }

  ghost predicate AllFine(rs: seq<Reading>) {
    forall i :: 0 <= i < |rs| ==> Fine(rs, i)
  }

  lemma IdsPush(rs: seq<Reading>, r: Reading)
    ensures DataIds(rs + [r]) == DataIds(rs) + if r.About? then {r.dataID} else {}
  {
    var all := rs + [r];
    forall id | id in DataIds(all) ensures id in DataIds(rs) || (r.About? && id == r.dataID) {
      var i :| 0 <= i < |all| && all[i].About? && all[i].dataID == id;
      if i < |rs| { assert rs[i] == all[i]; }
    }
    forall id | id in DataIds(rs) ensures id in DataIds(all) {
      var i :| 0 <= i < |rs| && rs[i].About? && rs[i].dataID == id;
      assert all[i] == rs[i];
    }
    assert all[|rs|] == r;
  }

  lemma {:induction false} FirstSizePush(rs: seq<Reading>, r: Reading, id: int)
    ensures id in DataIds(rs) ==> FirstSizeOf(rs + [r], id) == FirstSizeOf(rs, id)
    ensures id !in DataIds(rs) && r.About? && r.dataID == id ==>
              FirstSizeOf(rs + [r], id) == if r.size.Some? then r.size.value else 0
  {
    var all := rs + [r];
    if rs != [] {
      assert all[1..] == rs[1..] + [r];
      assert rs == [rs[0]] + rs[1..];
      IdsSplit(rs);
      FirstSizePush(rs[1..], r, id);
    }
  }

  lemma IdsSplit(rs: seq<Reading>)
    requires rs != []
    ensures DataIds(rs) == (if rs[0].About? then {rs[0].dataID} else {}) + DataIds(rs[1..])
  {
    forall id | id in DataIds(rs) ensures (rs[0].About? && id == rs[0].dataID) || id in DataIds(rs[1..]) {
      var i :| 0 <= i < |rs| && rs[i].About? && rs[i].dataID == id;
      if i > 0 { assert rs[1..][i - 1] == rs[i]; }
    }
    forall id | id in DataIds(rs[1..]) ensures id in DataIds(rs) {
      var i :| 0 <= i < |rs[1..]| && rs[1..][i].About? && rs[1..][i].dataID == id;
      assert rs[i + 1] == rs[1..][i];
    }
  }

  /** What one more row adds to the sum of first sizes. */
  lemma SumPush(rs: seq<Reading>, r: Reading)
    ensures SumOver(FirstSize(rs + [r]), DataIds(rs + [r])) ==
            SumOver(FirstSize(rs), DataIds(rs)) +
            if r.About? && r.dataID !in DataIds(rs) then (if r.size.Some? then r.size.value else 0) else 0
  {
    var all := rs + [r];
    IdsPush(rs, r);
    forall id | id in DataIds(rs) ensures FirstSize(all)(id) == FirstSize(rs)(id) {
      FirstSizePush(rs, r, id);
    }
    SumSame(FirstSize(all), FirstSize(rs), DataIds(rs));
    if r.About? && r.dataID !in DataIds(rs) {
      FirstSizePush(rs, r, r.dataID);
      SumWithout(FirstSize(all), DataIds(all), r.dataID);
      assert DataIds(all) - {r.dataID} == DataIds(rs);
    } else {
      assert DataIds(all) == DataIds(rs);
    }
  }

  lemma NothingNew(rs: seq<Reading>, r: Reading)
    requires r.PassedOver? || (r.About? && r.dataID in DataIds(rs))
    ensures DataIds(rs + [r]) == DataIds(rs)
    ensures SumOver(FirstSize(rs + [r]), DataIds(rs + [r])) == SumOver(FirstSize(rs), DataIds(rs))
  {
    IdsPush(rs, r);
    SumPush(rs, r);
  }

  lemma OneNew(rs: seq<Reading>, r: Reading)
    requires r.About? && r.dataID !in DataIds(rs) && r.size.Some?
    ensures DataIds(rs + [r]) == DataIds(rs) + {r.dataID} && |DataIds(rs + [r])| == |DataIds(rs)| + 1
    ensures SumOver(FirstSize(rs + [r]), DataIds(rs + [r])) == SumOver(FirstSize(rs), DataIds(rs)) + r.size.value
  {
    IdsPush(rs, r);
    SumPush(rs, r);
  }

  // ---------------------------------------------------------------- the accumulator

  function Reads(rows: seq<CatalogRow>): (rs: seq<Reading>)
    ensures |rs| == |rows| && forall i :: 0 <= i < |rows| ==> rs[i] == Read(rows[i])
  {
    seq(|rows|, i requires 0 <= i < |rows| => Read(rows[i]))
  }

  /** `DrsDataObjectSummary`, and the ids already counted. */
  class DataObjectSummary {
    var dataObjectCount: Int64
    var totalSize: Int64
    var seenDataIDs: set<int>

    constructor ()
      ensures Tells([])
    {
      dataObjectCount, totalSize, seenDataIDs := 0, 0, {};
    }

    /** The fields hold these ids, and this sum of their sizes as far as 64 bits go. */
    ghost predicate Holds(ids: set<int>, sum: int)
      reads this
    {
      seenDataIDs == ids && dataObjectCount == Wrap(|ids|) && totalSize == Wrap(sum)
    }

    /** What the fields say about the rows accumulated: each data object is counted once, with the size
        that its first row gives it. */
    ghost predicate Tells(rs: seq<Reading>)
      reads this
    {
      Holds(DataIds(rs), SumOver(FirstSize(rs), DataIds(rs)))
    }

    /** One turn of the loop of `appendDrsDataObjectSummaryRows`, the row having been read. */
    method AppendRow(reading: Reading, ghost rs: seq<Reading>) returns (ok: bool)
      requires Tells(rs)
      modifies this
      ensures ok <==> Fine(rs + [reading], |rs|)
      ensures ok ==> Tells(rs + [reading])
      ensures !ok ==> Tells(rs)
    {
      FineNext(rs, reading);
      if reading.Unreadable? {
        return false;
      }
      if reading.PassedOver? || reading.dataID in seenDataIDs {
        StillTells(rs, reading);
        return true;
      }
      if reading.size.None? {
        return false;
      }
      ghost var ids, sum := DataIds(rs), SumOver(FirstSize(rs), DataIds(rs));
      Count(reading.dataID, reading.size.value, ids, sum);
      NowTells(rs, reading, ids, sum);
      ok := true;
    }

    lemma StillTells(rs: seq<Reading>, r: Reading)
      requires Tells(rs) && (r.PassedOver? || (r.About? && r.dataID in DataIds(rs)))
      ensures Tells(rs + [r])
    {
      NothingNew(rs, r);
    }

    lemma NowTells(rs: seq<Reading>, r: Reading, ids: set<int>, sum: int)
      requires ids == DataIds(rs) && sum == SumOver(FirstSize(rs), DataIds(rs))
      requires r.About? && r.dataID !in ids && r.size.Some? && Holds(ids + {r.dataID}, sum + r.size.value)
      ensures Tells(rs + [r])
    {
      OneNew(rs, r);
    }

    /** A data object seen for the first time. */
    method Count(dataID: Int64, size: Int64, ghost ids: set<int>, ghost sum: int)
      requires Holds(ids, sum) && dataID !in ids
      modifies this
      ensures Holds(ids + {dataID}, sum + size)
    {
      WrapAdd(|ids|, 1);
      WrapAdd(sum, size);
      seenDataIDs := seenDataIDs + {dataID};
      dataObjectCount := Wrap(dataObjectCount + 1);
      totalSize := Wrap(totalSize + size);
    }

    /** `appendDrsDataObjectSummaryRows`, once the columns have been found. */
    method AppendRows(rows: seq<CatalogRow>, ghost rs: seq<Reading>) returns (ok: bool)
      requires Tells(rs) && AllFine(rs)
      modifies this
      ensures ok <==> AllFine(rs + Reads(rows))
      ensures ok ==> Tells(rs + Reads(rows))
    {
      ReadsEnds(rs, Reads(rows));
      for i := 0 to |rows|
        invariant Tells(rs + Reads(rows)[..i]) && AllFine(rs + Reads(rows)[..i])
      {
        ghost var before := rs + Reads(rows)[..i];
        OneMoreRead(rs, Reads(rows), i);
        ok := AppendRow(Read(rows[i]), before);
        if !ok {
          return;
        }
      }
      ok := true;
    }
  }

  lemma FineWithin(some: seq<Reading>, all: seq<Reading>, i: nat)
    requires some <= all && i < |some|
    ensures Fine(some, i) <==> Fine(all, i)
  {
    assert some[..i] == all[..i];
  }

  lemma ReadsEnds(rs: seq<Reading>, more: seq<Reading>)
    ensures rs + more[..0] == rs && more[..|more|] == more
  {
  }

  /** One more row of a page: the rows so far, and whether the next one stops the loop. */
  lemma OneMoreRead(rs: seq<Reading>, more: seq<Reading>, i: nat)
    requires i < |more| && AllFine(rs + more[..i])
    ensures var before := rs + more[..i];
      && rs + more[..i + 1] == before + [more[i]]
      && (Fine(before + [more[i]], |before|) ==> AllFine(before + [more[i]]))
      && (!Fine(before + [more[i]], |before|) ==> !AllFine(rs + more))
  {
    var before := rs + more[..i];
    assert rs + more[..i + 1] == before + [more[i]];
    assert before + [more[i]] <= rs + more by {
      assert rs + more == rs + more[..i + 1] + more[i + 1..];
    }
    FineWithin(before + [more[i]], rs + more, |before|);
    if Fine(before + [more[i]], |before|) {
      FinePush(before, more[i]);
    }
  }

  lemma FineNext(rs: seq<Reading>, r: Reading)
    ensures Fine(rs + [r], |rs|) <==> !r.Unreadable? && (r.About? && r.dataID !in DataIds(rs) ==> r.size.Some?)
  {
    assert (rs + [r])[..|rs|] == rs;
  }

  lemma FinePush(rs: seq<Reading>, r: Reading)
    requires AllFine(rs) && Fine(rs + [r], |rs|)
    ensures AllFine(rs + [r])
  {
    forall i | 0 <= i < |rs| + 1 ensures Fine(rs + [r], i) {
      if i < |rs| {
        FineWithin(rs, rs + [r], i);
      }
    }
  }

  // ---------------------------------------------------------------- the pages

  /** One answer of the catalogue. `next` is the index to continue with, 0 at the end. */
  datatype Reply = NoRows | RequestFailed | Page(rows: seq<CatalogRow>, columnMissing: bool, next: int)

  function RowsOfPage(reply: Reply): seq<CatalogRow> {
    if reply.Page? then reply.rows else []
  }

  ghost function RowsOfPages(replies: seq<Reply>): seq<CatalogRow> {
    if replies == [] then [] else RowsOfPages(replies[..|replies| - 1]) + RowsOfPage(replies[|replies| - 1])
  }

  /** The catalogue answers with these rows, cut into pages in any way, and ends with a page that says
      so or with the news that there are no more rows. */
  ghost predicate ServesRows(replies: seq<Reply>, rows: seq<CatalogRow>) {
    && replies != [] && RowsOfPages(replies) == rows
    && (forall i :: 0 <= i < |replies| - 1 ==> GoodPage(replies[i], true))
    && (replies[|replies| - 1].NoRows? || GoodPage(replies[|replies| - 1], false))
  }

  ghost predicate GoodPage(reply: Reply, more: bool) {
    reply.Page? && !reply.columnMissing && (reply.next != 0 <==> more)
  }

  lemma ReadsAppend(a: seq<CatalogRow>, b: seq<CatalogRow>)
    ensures Reads(a + b) == Reads(a) + Reads(b)
  {
  }

  lemma RowsOfPagesStep(replies: seq<Reply>, k: nat)
    requires k < |replies|
    ensures RowsOfPages(replies[..k + 1]) == RowsOfPages(replies[..k]) + RowsOfPage(replies[k])
  {
    assert replies[..k + 1][..k] == replies[..k];
  }

  lemma {:induction false} RowsOfPagesPrefix(replies: seq<Reply>, k: nat)
    requires k <= |replies|
    ensures RowsOfPages(replies[..k]) <= RowsOfPages(replies)
    decreases |replies| - k
  {
    if k == |replies| {
      assert replies[..k] == replies;
    } else {
      RowsOfPagesStep(replies, k);
      RowsOfPagesPrefix(replies, k + 1);
    }
  }

  lemma FineAll(some: seq<Reading>, all: seq<Reading>)
    requires some <= all && AllFine(all)
    ensures AllFine(some)
  {
    forall i | 0 <= i < |some| ensures Fine(some, i) {
      FineWithin(some, all, i);
    }
  }

  /** `queryDrsDataObjectSummaryWithConnection`: however the rows are cut into pages, it succeeds exactly
      when no row stops it, and then tells of all of them. */
  method QuerySummary(replies: seq<Reply>, ghost rows: seq<CatalogRow>) returns (ok: bool, summary: DataObjectSummary)
    ensures ServesRows(replies, rows) ==> (ok <==> AllFine(Reads(rows)))
    ensures ServesRows(replies, rows) && ok ==> summary.Tells(Reads(rows))
  {
    summary := new DataObjectSummary();
    var page := 0;
    assert Reads([]) == [];
    while page < |replies|
      invariant page <= |replies|
      invariant ServesRows(replies, rows) ==> page < |replies|
      invariant AllFine(Reads(RowsOfPages(replies[..page]))) && summary.Tells(Reads(RowsOfPages(replies[..page])))
    {
      ghost var before, after := RowsOfPages(replies[..page]), RowsOfPages(replies[..page + 1]);
      var reply := replies[page];
      RowsOfPagesStep(replies, page);
      ReadsAppend(before, RowsOfPage(reply));
      if ServesRows(replies, rows) {
        PageFacts(replies, rows, page);
      }
      if reply.NoRows? {
        assert before + [] == before;
        return true, summary;
      }
      if reply.RequestFailed? || (reply.rows != [] && reply.columnMissing) {
        return false, summary;
      }
      ok := summary.AppendRows(reply.rows, Reads(before));
      if !ok || reply.next == 0 {
        return;
      }
      page := page + 1;
    }
    ok := false;
  }

  lemma ReadsPrefix(a: seq<CatalogRow>, b: seq<CatalogRow>)
    requires a <= b
    ensures Reads(a) <= Reads(b)
  {
  }

  lemma PageFacts(replies: seq<Reply>, rows: seq<CatalogRow>, page: nat)
    requires ServesRows(replies, rows) && page < |replies|
    ensures page < |replies| - 1 ==> GoodPage(replies[page], true)
    ensures page == |replies| - 1 ==> replies[page].NoRows? || GoodPage(replies[page], false)
    ensures page == |replies| - 1 ==> RowsOfPages(replies[..page + 1]) == rows
    ensures AllFine(Reads(rows)) ==> AllFine(Reads(RowsOfPages(replies[..page + 1])))
  {
    assert replies[..|replies|] == replies;
    var after := RowsOfPages(replies[..page + 1]);
    RowsOfPagesPrefix(replies, page + 1);
    ReadsPrefix(after, rows);
    if AllFine(Reads(rows)) {
      FineAll(Reads(after), Reads(rows));
    }
  }

  // ---------------------------------------------------------------- what the totals mean

  /** The total is not negative as long as the true sum fits 64 bits. */
  lemma TotalNotNegative(rs: seq<Reading>)
    requires forall i :: 0 <= i < |rs| && rs[i].About? && rs[i].size.Some? ==> rs[i].size.value >= 0
    ensures SumOver(FirstSize(rs), DataIds(rs)) >= 0
    ensures SumOver(FirstSize(rs), DataIds(rs)) <= MAX_INT64 ==>
              Wrap(SumOver(FirstSize(rs), DataIds(rs))) == SumOver(FirstSize(rs), DataIds(rs))
  {
    forall id ensures FirstSize(rs)(id) >= 0 {
      FirstSizeNotNegative(rs, id);
    }
    SumNotNegative(FirstSize(rs), DataIds(rs));
  }

  lemma {:induction false} FirstSizeNotNegative(rs: seq<Reading>, id: int)
    requires forall i :: 0 <= i < |rs| && rs[i].About? && rs[i].size.Some? ==> rs[i].size.value >= 0
    ensures FirstSizeOf(rs, id) >= 0
  {
    if rs != [] {
      FirstSizeNotNegative(rs[1..], id);
    }
  }

  /** Every row gives a data object one and the same size. */
  ghost predicate OneSizeEach(rs: seq<Reading>, size: int -> int) {
    forall i :: 0 <= i < |rs| && rs[i].About? ==> rs[i].size.Some? && rs[i].size.value == size(rs[i].dataID)
  }

  lemma {:induction false} FirstSizeIs(rs: seq<Reading>, size: int -> int, id: int)
    requires OneSizeEach(rs, size) && id in DataIds(rs)
    ensures FirstSizeOf(rs, id) == size(id)
  {
    IdsSplit(rs);
    if !(rs[0].About? && rs[0].dataID == id) {
      FirstSizeIs(rs[1..], size, id);
    }
  }

  /** Then the order of the rows does not matter. */
  lemma SummaryIgnoresOrder(a: seq<Reading>, b: seq<Reading>, size: int -> int)
    requires OneSizeEach(a, size) && OneSizeEach(b, size)
    requires forall r :: r in a <==> r in b
    ensures DataIds(a) == DataIds(b) && SumOver(FirstSize(a), DataIds(a)) == SumOver(FirstSize(b), DataIds(b))
  {
    IdsWithin(a, b);
    IdsWithin(b, a);
    forall id | id in DataIds(a) ensures FirstSize(a)(id) == FirstSize(b)(id) {
      FirstSizeIs(a, size, id);
      FirstSizeIs(b, size, id);
    }
    SumSame(FirstSize(a), FirstSize(b), DataIds(a));
  }

  lemma IdsWithin(a: seq<Reading>, b: seq<Reading>)
    requires forall r :: r in a ==> r in b
    ensures DataIds(a) <= DataIds(b)
  {
    forall id | id in DataIds(a) ensures id in DataIds(b) {
      var i :| 0 <= i < |a| && a[i].About? && a[i].dataID == id;
      assert a[i] in b;
      var j :| 0 <= j < |b| && b[j] == a[i];
    }
  }

  // ---------------------------------------------------------------- rows as the catalogue prints them

  /** A number as the catalogue prints it is read back; a negative one is not. */
  lemma ParseCatalogPrinted(n: nat)
    ensures n <= MAX_INT64 ==> ParseCatalogInt64(Decimal(n)) == Some(n)
    ensures n > MAX_INT64 ==> ParseCatalogInt64(Decimal(n)) == None
    ensures n > 0 ==> ParseCatalogInt64("-" + Decimal(n)) == None
  {
    DecimalTrimmed(n);
    TrimSpaceFixed(Decimal(n));
    TrimSpaceFixed("-" + Decimal(n));
    ParsePrinted(n);
  }

  /** A data object with a DRS id, as one row of the catalogue tells of it. */
  datatype Stored = Stored(dataID: nat, size: nat, drsID: string)

  function RowFor(o: Stored): CatalogRow {
    CatalogRow(Some(Decimal(o.dataID)), Some(Decimal(o.size)), Some(o.drsID), Some(Avus.DRS_UNIT))
  }

  predicate Fits(o: Stored) {
    o.dataID <= MAX_INT64 && o.size <= MAX_INT64 && TrimSpace(o.drsID) != ""
  }

  lemma UnitIsValid(drsID: string)
    ensures IsValidId(drsID, Avus.DRS_UNIT) <==> TrimSpace(drsID) != ""
  {
    TrimSpaceFixed(Avus.DRS_UNIT);
  }

  /** Such a row is read as what it tells of. */
  lemma RowReadsBack(o: Stored)
    requires Fits(o)
    ensures Read(RowFor(o)) == About(o.dataID, Some(o.size))
  {
    UnitIsValid(o.drsID);
    ParseCatalogPrinted(o.dataID);
    ParseCatalogPrinted(o.size);
  }

  /** A row without an id, or with another program's, is passed over, whatever its other cells; without
      the cells to tell by it cannot be read. */
  lemma PassedOverIff(row: CatalogRow)
    ensures Read(row).PassedOver? <==>
              && row.avuValue.Some? && row.avuUnits.Some?
              && (|| TrimSpace(row.avuValue.value) == ""
                  || (TrimSpace(row.avuUnits.value) != ""
                      && !EqualFold(TrimSpace(row.avuUnits.value), Avus.DRS_UNIT)))
  {
  }

  ghost function StoredIds(stored: seq<Stored>): set<int> {
    set i | 0 <= i < |stored| :: stored[i].dataID
  }

  ghost function StoredSize(stored: seq<Stored>): int -> int {
    id => FirstStored(stored, id)
  }

  /** The size in the first row about a data object. */
  ghost function FirstStored(stored: seq<Stored>, id: int): int {
    if stored == [] then 0 else if stored[0].dataID == id then stored[0].size else FirstStored(stored[1..], id)
  }

  lemma {:induction false} StoredReads(stored: seq<Stored>, rows: seq<CatalogRow>, id: int)
    requires |rows| == |stored| && forall i :: 0 <= i < |rows| ==> Fits(stored[i]) && rows[i] == RowFor(stored[i])
    ensures FirstSizeOf(Reads(rows), id) == FirstStored(stored, id)
  {
    if rows != [] {
      RowReadsBack(stored[0]);
      StoredReads(stored[1..], rows[1..], id);
      assert Reads(rows)[1..] == Reads(rows[1..]);
    }
  }

  lemma SizedIsFine(rs: seq<Reading>)
    requires forall i :: 0 <= i < |rs| ==> rs[i].About? && rs[i].size.Some?
    ensures AllFine(rs)
  {
    forall i | 0 <= i < |rs| ensures Fine(rs, i) {
    }
  }

  lemma SameIds(rs: seq<Reading>, stored: seq<Stored>)
    requires |rs| == |stored|
    requires forall i :: 0 <= i < |rs| ==> rs[i].About? && rs[i].dataID == stored[i].dataID
    ensures DataIds(rs) == StoredIds(stored)
  {
    forall id | id in StoredIds(stored) ensures id in DataIds(rs) {
      var i :| 0 <= i < |stored| && stored[i].dataID == id;
      assert rs[i].About?;
    }
    forall id | id in DataIds(rs) ensures id in StoredIds(stored) {
      var i :| 0 <= i < |rs| && rs[i].About? && rs[i].dataID == id;
      assert stored[i].dataID == id;
    }
  }

  lemma StoredIdsRead(stored: seq<Stored>, rows: seq<CatalogRow>)
    requires |rows| == |stored| && forall i :: 0 <= i < |rows| ==> Fits(stored[i]) && rows[i] == RowFor(stored[i])
    ensures DataIds(Reads(rows)) == StoredIds(stored) && AllFine(Reads(rows))
  {
    forall i | 0 <= i < |rows| ensures Reads(rows)[i] == About(stored[i].dataID, Some(stored[i].size)) {
      RowReadsBack(stored[i]);
    }
    SizedIsFine(Reads(rows));
    SameIds(Reads(rows), stored);
  }

  /** The summary of stored data objects, however their rows are paged: each is counted once, with the
      size in the first row about it. */
  method QueryStored(replies: seq<Reply>, ghost rows: seq<CatalogRow>, ghost stored: seq<Stored>)
    returns (ok: bool, summary: DataObjectSummary)
    requires ServesRows(replies, rows)
    requires |rows| == |stored| && forall i :: 0 <= i < |rows| ==> Fits(stored[i]) && rows[i] == RowFor(stored[i])
    ensures ok && summary.Holds(StoredIds(stored), SumOver(StoredSize(stored), StoredIds(stored)))
  {
    StoredIdsRead(stored, rows);
    forall id | id in StoredIds(stored) ensures FirstSize(Reads(rows))(id) == StoredSize(stored)(id) {
      StoredReads(stored, rows, id);
    }
    SumSame(FirstSize(Reads(rows)), StoredSize(stored), StoredIds(stored));
    ok, summary := QuerySummary(replies, rows);
  }
}
