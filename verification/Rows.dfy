/** Folding query rows into a map by path. The key type is left generic. */
module Rows {
  import opened Lists
  import opened Avus

  /** One entry of a query result, with its matched metadata. */
  datatype Row<K> = Row(path: K, isDir: bool, avus: seq<Avu>)

  /** `drsListingEntry`. */
  datatype ListingEntry = ListingEntry(isDir: bool, avus: seq<Avu>)

  /** `appendUniqueAVUStats`. */
  function AppendUnique(existing: seq<Avu>, additions: seq<Avu>): seq<Avu>
    decreases |additions|
  {
    if additions == [] then existing
    else if additions[0] in existing then AppendUnique(existing, additions[1..])
    else AppendUnique(existing + [additions[0]], additions[1..])
  }

  /** Every triple of both, those already there first, and nothing twice that was not. */
  lemma {:induction false} AppendUniqueHolds(existing: seq<Avu>, additions: seq<Avu>)
    ensures var r := AppendUnique(existing, additions);
      && existing <= r && (forall a :: a in r <==> a in existing || a in additions)
      && (Distinct(existing) ==> Distinct(r))
    decreases |additions|
  {
    if additions != [] {
      var next := if additions[0] in existing then existing else existing + [additions[0]];
      AppendUniqueHolds(next, additions[1..]);
      DistinctAppend(existing, [additions[0]]);
      assert additions == [additions[0]] + additions[1..];
    }
  }

  /** What one row adds to `entriesByPath`. */
  function AddRow<K>(keep: Row<K> -> bool, entries: map<K, ListingEntry>, row: Row<K>): map<K, ListingEntry> {
    if !keep(row) then entries
    else if row.path in entries then
      entries[row.path := ListingEntry(entries[row.path].isDir, AppendUnique(entries[row.path].avus, row.avus))]
    else entries[row.path := EntryOf(row)]
  }

  function EntryOf<K>(row: Row<K>): ListingEntry {
    ListingEntry(row.isDir, AppendUnique([], row.avus))
  }

  function AddRows<K>(keep: Row<K> -> bool, entries: map<K, ListingEntry>, rows: seq<Row<K>>): map<K, ListingEntry>
    decreases |rows|
  {
    if rows == [] then entries else AddRows(keep, AddRow(keep, entries, rows[0]), rows[1..])
  }

  lemma {:induction false} AddRowsAppend<K>(keep: Row<K> -> bool, entries: map<K, ListingEntry>,
                                            a: seq<Row<K>>, b: seq<Row<K>>)
    ensures AddRows(keep, entries, a + b) == AddRows(keep, AddRows(keep, entries, a), b)
    decreases |a|
  {
    if a == [] {
      assert a + b == b;
    } else {
      assert (a + b)[1..] == a[1..] + b;
      AddRowsAppend(keep, AddRow(keep, entries, a[0]), a[1..], b);
    }
  }

  function PathOfRow<K>(row: Row<K>): K { row.path }

  function PathsOfRows<K>(rows: seq<Row<K>>): (r: seq<K>)
    ensures |r| == |rows| && forall i :: 0 <= i < |rows| ==> r[i] == rows[i].path
  {
    MapSeq(PathOfRow, rows)
  }

  /** The querier returns each entry once. */
  ghost predicate EachOnce<K>(rows: seq<Row<K>>) {
    Distinct(PathsOfRows(rows))
  }

  lemma {:induction false} AddRowsExact<K(!new)>(keep: Row<K> -> bool, entries: map<K, ListingEntry>, rows: seq<Row<K>>)
    requires EachOnce(rows)
    requires forall i :: 0 <= i < |rows| ==> rows[i].path !in entries
    ensures var m := AddRows(keep, entries, rows);
      && (forall p :: p in m <==> p in entries || exists i :: 0 <= i < |rows| && keep(rows[i]) && rows[i].path == p)
      && (forall p :: p in entries ==> m[p] == entries[p])
      && (forall i :: 0 <= i < |rows| && keep(rows[i]) ==> m[rows[i].path] == EntryOf(rows[i]))
    decreases |rows|
  {
    if rows != [] {
      var e1 := AddRow(keep, entries, rows[0]);
      var rest := rows[1..];
      assert PathsOfRows(rest) == PathsOfRows(rows)[1..];
      forall i | 0 <= i < |rest| ensures rest[i].path !in e1 {
        assert PathsOfRows(rows)[0] != PathsOfRows(rows)[i + 1];
      }
      AddRowsExact(keep, e1, rest);
      var m := AddRows(keep, e1, rest);
      forall p ensures p in m <==> p in entries || exists i :: 0 <= i < |rows| && keep(rows[i]) && rows[i].path == p {
        if exists i :: 0 <= i < |rows| && keep(rows[i]) && rows[i].path == p {
          var i :| 0 <= i < |rows| && keep(rows[i]) && rows[i].path == p;
          if i > 0 {
            assert rest[i - 1] == rows[i];
          }
        }
      }
      forall i | 0 <= i < |rows| && keep(rows[i]) ensures m[rows[i].path] == EntryOf(rows[i]) {
        if i > 0 {
          assert rest[i - 1] == rows[i];
        }
      }
    }
  }

  /** The row is kept, and about this path. */
  predicate Tells<K(==)>(keep: Row<K> -> bool, p: K, row: Row<K>) { keep(row) && row.path == p }

  function About<K(==)>(keep: Row<K> -> bool, p: K): Row<K> -> bool { (row: Row<K>) => Tells(keep, p, row) }

  ghost predicate Holds<K>(rows: seq<Row<K>>, a: Avu) { exists r :: r in rows && a in r.avus }

  /** Rows may well repeat a path. What comes of one path is the kind that its first row has, and the triples
      of all its rows, each once. */
  lemma {:induction false} AddRowsMerge<K>(keep: Row<K> -> bool, entries: map<K, ListingEntry>, rows: seq<Row<K>>,
                                           p: K)
    requires p in entries ==> Distinct(entries[p].avus)
    ensures var m, told := AddRows(keep, entries, rows), Filter(About(keep, p), rows);
      && (p in m <==> p in entries || told != [])
      && (p in m ==>
            && Distinct(m[p].avus) && m[p].isDir == (if p in entries then entries[p].isDir else told[0].isDir)
            && forall a :: a in m[p].avus <==> (p in entries && a in entries[p].avus) || Holds(told, a))
    decreases |rows|
  {
    if rows != [] {
      var row, rest := rows[0], rows[1..];
      AppendUniqueHolds(if row.path in entries then entries[row.path].avus else [], row.avus);
      AddRowsMerge(keep, AddRow(keep, entries, row), rest, p);
      assert rows == [row] + rest;
      FilterCons(About(keep, p), row, rest);
      forall a ensures Holds(Filter(About(keep, p), rows), a) <==>
                       (Tells(keep, p, row) && a in row.avus) || Holds(Filter(About(keep, p), rest), a) {
        HoldsCons(if Tells(keep, p, row) then [row] else [], Filter(About(keep, p), rest), a);
      }
    }
  }

  lemma HoldsCons<K>(a: seq<Row<K>>, b: seq<Row<K>>, x: Avu)
    ensures Holds(a + b, x) <==> Holds(a, x) || Holds(b, x)
  {
    if Holds(a, x) {
      var r :| r in a && x in r.avus;
      assert r in a + b;
    }
    if Holds(b, x) {
      var r :| r in b && x in r.avus;
      assert r in a + b;
    }
  }

  /** Which rows arrived, not in what order, decides the map. */
  lemma OrderIrrelevant<K(!new)>(keep: Row<K> -> bool, a: seq<Row<K>>, b: seq<Row<K>>)
    requires EachOnce(a) && EachOnce(b) && forall r :: r in a <==> r in b
    ensures AddRows(keep, map[], a) == AddRows(keep, map[], b)
  {
    AddRowsExact(keep, map[], a);
    AddRowsExact(keep, map[], b);
    SubsetOfRows(keep, a, b);
    SubsetOfRows(keep, b, a);
  }

  lemma SubsetOfRows<K(!new)>(keep: Row<K> -> bool, a: seq<Row<K>>, b: seq<Row<K>>)
    requires EachOnce(a) && EachOnce(b) && forall r :: r in a ==> r in b
    ensures var m, n := AddRows(keep, map[], a), AddRows(keep, map[], b);
      forall p :: p in m ==> p in n && m[p] == n[p]
  {
    AddRowsExact(keep, map[], a);
    AddRowsExact(keep, map[], b);
    var m, n := AddRows(keep, map[], a), AddRows(keep, map[], b);
    forall p | p in m ensures p in n && m[p] == n[p] {
      var i :| 0 <= i < |a| && keep(a[i]) && a[i].path == p;
      assert a[i] in a;
      var j :| 0 <= j < |b| && b[j] == a[i];
      assert n[b[j].path] == EntryOf(b[j]);
    }
  }

  lemma {:induction false} AddRowsGrows<K>(keep: Row<K> -> bool, entries: map<K, ListingEntry>, rows: seq<Row<K>>)
    ensures entries.Keys <= AddRows(keep, entries, rows).Keys
    ensures |entries| <= |AddRows(keep, entries, rows)|
    decreases |rows|
  {
    if rows != [] {
      AddRowsGrows(keep, AddRow(keep, entries, rows[0]), rows[1..]);
    }
    KeysSubsetSize(entries.Keys, AddRows(keep, entries, rows).Keys);
  }

  lemma {:induction false} KeysSubsetSize<K>(a: set<K>, b: set<K>)
    requires a <= b
    ensures |a| <= |b|
  {
    if a != {} {
      var x :| x in a;
      KeysSubsetSize(a - {x}, b - {x});
    }
  }

  lemma KeptKeys<K(!new)>(keep: Row<K> -> bool, rows: seq<Row<K>>)
    requires EachOnce(rows)
    ensures Elems(PathsOfRows(Filter(keep, rows))) == AddRows(keep, map[], rows).Keys
    ensures forall r :: r in Filter(keep, rows) ==>
              r.path in AddRows(keep, map[], rows) && AddRows(keep, map[], rows)[r.path] == EntryOf(r)
  {
    var m, f := AddRows(keep, map[], rows), Filter(keep, rows);
    AddRowsExact(keep, map[], rows);
    forall r | r in f ensures r.path in m && m[r.path] == EntryOf(r) {
      FilterMembers(keep, rows, r);
      var i :| 0 <= i < |rows| && rows[i] == r;
    }
    forall p | p in m ensures p in PathsOfRows(f) {
      var i :| 0 <= i < |rows| && keep(rows[i]) && rows[i].path == p;
      FilterMembers(keep, rows, rows[i]);
      var j :| 0 <= j < |f| && f[j] == rows[i];
      assert PathsOfRows(f)[j] == p;
    }
  }

  /** Rows ordered by path. */
  ghost predicate Ordered<K>(less: (K, K) -> bool, rows: seq<Row<K>>) {
    forall i, j :: 0 <= i < j < |rows| ==> less(rows[i].path, rows[j].path)
  }

  lemma {:induction false} FilterOrdered<K>(less: (K, K) -> bool, keep: Row<K> -> bool, rows: seq<Row<K>>)
    requires Ordered(less, rows)
    ensures Ordered(less, Filter(keep, rows))
  {
    if rows != [] {
      var rest := rows[1..];
      FilterOrdered(less, keep, rest);
      var f := Filter(keep, rest);
      forall j | 0 <= j < |f| ensures less(rows[0].path, f[j].path) {
        FilterMembers(keep, rest, f[j]);
        assert f[j] in f;
        var i :| 0 <= i < |rest| && rest[i] == f[j];
        assert rows[i + 1] == f[j];
      }
    }
  }
}
