/** A query from filters to rows: the body a table sends, the hits the server pages through, and the
    rows left after DataFusion has applied what was not pushed down (src/table.rs and src/exec.rs). */
module EndToEnd {
  import opened Prelude
  import opened Sql
  import opened Pushdown
  import opened Table
  import opened ExecPlan
  import opened Paging
  import opened Slices
  import opened SearchAfter

  /** The hits of a scan: the documents of the index that its body admits. */
  ghost function Hits(docs: seq<Doc>, p: Provider, filters: seq<Expr>, dialect: Dialect): seq<Doc> {
    Keep(docs, d => Admits(p.baseFilter, filters, d, dialect))
  }

  ghost function AfterResidual(rows: seq<Doc>, filters: seq<Expr>, dialect: Dialect): seq<Doc> {
    Keep(rows, Residual(filters, dialect))
  }

  ghost function Residual(filters: seq<Expr>, dialect: Dialect): Doc -> bool {
    d => PassesResidual(filters, d, dialect)
  }

  /** Each filter that translates is faithful, and each document meets the polarity condition. */
  ghost predicate Ready(docs: seq<Doc>, filters: seq<Expr>) {
    FaithfulFilters(filters) && forall d :: d in docs ==> PolarityReady(filters, d)
  }

  // ----- One stream

  function OneScroll(hits: seq<Doc>, ids: nat -> Option<Id>): World<Doc> {
    World(hits, None, true, ids)
  }

  /** What one scroll hands over: the hits, cut after the fetch. */
  lemma StreamedRows(hits: seq<Doc>, p: Provider, limit: Option<nat>, ids: nat -> Option<Id>)
    requires ids(0).Some? && p.searchAfter.None? && Scan(p, limit).partitions == 1
    ensures var w, x := OneScroll(hits, ids), Scan(p, limit);
            && Inv(w, x, Start(x, 0))
            && x.fetch == Tighter(limit, p.maxRows)
            && Concat(Run(w, x, Start(x, 0))) == hits[..Capped(|hits|, x.fetch)]
  {
    StreamIsComplete(OneScroll(hits, ids), Scan(p, limit), 0);
  }

  lemma WantedHits(docs: seq<Doc>, p: Provider, filters: seq<Expr>, dialect: Dialect)
    requires Ready(docs, filters)
    ensures WantedRows(docs, p.baseFilter, filters, dialect) == AfterResidual(Hits(docs, p, filters, dialect), filters, dialect)
  {
    WholeScanIsExact(docs, p.baseFilter, filters, dialect);
  }

  /** A query read through one scroll, with or without a limit and a cap on the table, returns that many
      wanted rows from the front if and only if the cap cuts clean: it leaves no hit out, or the filters
      left to DataFusion pass every hit before the cut, or none after it. */
  lemma QueryExactIff(docs: seq<Doc>, p: Provider, filters: seq<Expr>, limit: Option<nat>, dialect: Dialect,
                      ids: nat -> Option<Id>)
    requires Ready(docs, filters) && ids(0).Some?
    requires p.searchAfter.None? && Scan(p, limit).partitions == 1
    ensures var w, x := OneScroll(Hits(docs, p, filters, dialect), ids), Scan(p, limit);
            var wanted := WantedRows(docs, p.baseFilter, filters, dialect);
            && Inv(w, x, Start(x, 0))
            && x.fetch == Tighter(limit, p.maxRows)
            && (AfterResidual(Concat(Run(w, x, Start(x, 0))), filters, dialect) == wanted[..Capped(|wanted|, x.fetch)] <==>
                x.fetch.Some? ==> CutsClean(w.hits, Residual(filters, dialect), x.fetch.value))
  {
    var hits, x := Hits(docs, p, filters, dialect), Scan(p, limit);
    StreamedRows(hits, p, limit, ids);
    WantedHits(docs, p, filters, dialect);
    if x.fetch.Some? {
      CutThenKeepIff(hits, Residual(filters, dialect), x.fetch.value);
    } else {
      assert hits[..|hits|] == hits;
    }
  }

  /** A query without a limit returns exactly the rows it asks for, in index order, if and only if no row
      that passes the filters left to DataFusion lies beyond the table's cap. */
  lemma UnlimitedQuery(docs: seq<Doc>, p: Provider, filters: seq<Expr>, dialect: Dialect, ids: nat -> Option<Id>)
    requires Ready(docs, filters) && ids(0).Some?
    requires p.searchAfter.None? && Scan(p, None).partitions == 1
    ensures var w, x := OneScroll(Hits(docs, p, filters, dialect), ids), Scan(p, None);
            && Inv(w, x, Start(x, 0))
            && (AfterResidual(Concat(Run(w, x, Start(x, 0))), filters, dialect) ==
                WantedRows(docs, p.baseFilter, filters, dialect) <==>
                p.maxRows.Some? && p.maxRows.value < |w.hits| ==>
                  forall d :: d in w.hits[p.maxRows.value..] ==> !PassesResidual(filters, d, dialect))
  {
    var hits := Hits(docs, p, filters, dialect);
    StreamedRows(hits, p, None, ids);
    WantedHits(docs, p, filters, dialect);
    if p.maxRows.Some? {
      CutLosesNothingIff(hits, Residual(filters, dialect), p.maxRows.value);
    } else {
      assert hits[..|hits|] == hits;
    }
  }

  /** When every filter translates nothing is left to filter, and a query returns that many wanted rows
      from the front, with or without a limit and a cap. */
  lemma LimitedQuery(docs: seq<Doc>, p: Provider, filters: seq<Expr>, limit: Option<nat>, dialect: Dialect,
                     ids: nat -> Option<Id>)
    requires Ready(docs, filters) && ids(0).Some?
    requires p.searchAfter.None? && Scan(p, limit).partitions == 1
    requires forall f :: f in filters ==> ExprToQuery(f).Some?
    ensures var w, x := OneScroll(Hits(docs, p, filters, dialect), ids), Scan(p, limit);
            var wanted := WantedRows(docs, p.baseFilter, filters, dialect);
            && Inv(w, x, Start(x, 0))
            && Concat(Run(w, x, Start(x, 0))) == wanted[..Capped(|wanted|, Tighter(limit, p.maxRows))]
  {
    var w, x := OneScroll(Hits(docs, p, filters, dialect), ids), Scan(p, limit);
    forall d ensures PassesResidual(filters, d, dialect) {
      ResidualFilters(filters, d, dialect);
    }
    QueryExactIff(docs, p, filters, limit, dialect, ids);
    KeepEverything(Concat(Run(w, x, Start(x, 0))), Residual(filters, dialect));
  }

  /** On any documents, absent columns included, a query without limit or cap returns every row it asks for. */
  lemma QueryLosesNothing(docs: seq<Doc>, p: Provider, filters: seq<Expr>, dialect: Dialect, ids: nat -> Option<Id>)
    requires SafeFilters(filters, false, dialect) && ids(0).Some?
    requires p.searchAfter.None? && p.maxRows.None? && Scan(p, None).partitions == 1
    ensures var w, x := OneScroll(Hits(docs, p, filters, dialect), ids), Scan(p, None);
            && Inv(w, x, Start(x, 0))
            && Keep(AfterResidual(Concat(Run(w, x, Start(x, 0))), filters, dialect),
                    d => Wanted(p.baseFilter, filters, d, dialect)) ==
               WantedRows(docs, p.baseFilter, filters, dialect)
  {
    var hits := Hits(docs, p, filters, dialect);
    StreamedRows(hits, p, None, ids);
    assert hits[..|hits|] == hits;
    WholeScanLosesNothing(docs, p.baseFilter, filters, dialect);
  }

  // ----- Sliced streams

  lemma {:induction false} KeepCounts<T>(rows: seq<T>, p: T -> bool, x: T)
    ensures multiset(Keep(rows, p))[x] == if p(x) then multiset(rows)[x] else 0
  {
    if rows != [] {
      KeepCounts(rows[1..], p, x);
      assert rows == [rows[0]] + rows[1..];
      if p(rows[0]) {
        assert Keep(rows, p) == [rows[0]] + Keep(rows[1..], p);
      } else {
        assert Keep(rows, p) == Keep(rows[1..], p);
      }
    }
  }

  /** Filtering does not depend on the order of the rows. */
  lemma KeepUnordered(a: seq<Doc>, b: seq<Doc>, p: Doc -> bool)
    requires multiset(a) == multiset(b)
    ensures multiset(Keep(a, p)) == multiset(Keep(b, p))
  {
    var ka, kb := multiset(Keep(a, p)), multiset(Keep(b, p));
    forall x ensures ka[x] == kb[x] {
      KeepCounts(a, p, x);
      KeepCounts(b, p, x);
    }
    assert ka <= kb && kb <= ka;
  }

  /** A query without a limit, fanned out over sliced scrolls in any interleaving, returns exactly the
      rows it asks for, each as often. */
  lemma SlicedQuery(docs: seq<Doc>, p: Provider, filters: seq<Expr>, dialect: Dialect,
                    slice: seq<nat>, ids: seq<nat -> Option<Id>>, schedule: seq<nat>)
    requires Ready(docs, filters) && p.maxRows.None? && p.searchAfter.None?
    requires Sliced(Cluster(Hits(docs, p, filters, dialect), slice, ids), Scan(p, None).partitions)
    requires forall k :: 0 <= k < |schedule| ==> schedule[k] < Scan(p, None).partitions
    ensures var c, x := Cluster(Hits(docs, p, filters, dialect), slice, ids), Scan(p, None);
            && FansOut(x) && SystemInv(c, x, Begin(x))
            && var end := Interleave(c, x, Begin(x), schedule);
               AllEnded(end) ==>
                 multiset(AfterResidual(end.out, filters, dialect)) ==
                 multiset(WantedRows(docs, p.baseFilter, filters, dialect))
  {
    var c, x := Cluster(Hits(docs, p, filters, dialect), slice, ids), Scan(p, None);
    EveryInterleavingIsComplete(c, x, schedule);
    var end := Interleave(c, x, Begin(x), schedule);
    if AllEnded(end) {
      WholeScanIsExact(docs, p.baseFilter, filters, dialect);
      KeepUnordered(end.out, c.hits, Residual(filters, dialect));
    }
  }

  /** On any documents a query fanned out in the same way returns every row it asks for, as often. */
  lemma SlicedQueryLosesNothing(docs: seq<Doc>, p: Provider, filters: seq<Expr>, dialect: Dialect,
                                slice: seq<nat>, ids: seq<nat -> Option<Id>>, schedule: seq<nat>)
    requires SafeFilters(filters, false, dialect) && p.maxRows.None? && p.searchAfter.None?
    requires Sliced(Cluster(Hits(docs, p, filters, dialect), slice, ids), Scan(p, None).partitions)
    requires forall k :: 0 <= k < |schedule| ==> schedule[k] < Scan(p, None).partitions
    ensures var c, x := Cluster(Hits(docs, p, filters, dialect), slice, ids), Scan(p, None);
            && FansOut(x) && SystemInv(c, x, Begin(x))
            && var end := Interleave(c, x, Begin(x), schedule);
               AllEnded(end) ==>
                 multiset(Keep(AfterResidual(end.out, filters, dialect), d => Wanted(p.baseFilter, filters, d, dialect))) ==
                 multiset(WantedRows(docs, p.baseFilter, filters, dialect))
  {
    var c, x := Cluster(Hits(docs, p, filters, dialect), slice, ids), Scan(p, None);
    EveryInterleavingIsComplete(c, x, schedule);
    var end := Interleave(c, x, Begin(x), schedule);
    if AllEnded(end) {
      WholeScanLosesNothing(docs, p.baseFilter, filters, dialect);
      KeepUnordered(end.out, c.hits, Residual(filters, dialect));
      KeepUnordered(AfterResidual(end.out, filters, dialect), AfterResidual(c.hits, filters, dialect),
                    d => Wanted(p.baseFilter, filters, d, dialect));
    }
  }

  // ----- The base filter

  /** Whatever the query's filters, its limit, the table's cap, the cursor and the partition: no row handed
      over fails the base filter. The server answers with documents that the body admits. */
  lemma BaseFilterHoldsInEveryStream(p: Provider, filters: seq<Expr>, limit: Option<nat>, w: World<Doc>,
                                     partition: nat, dialect: Dialect)
    requires Serves(w, Scan(p, limit), partition)
    requires forall d :: d in w.hits ==> Admits(p.baseFilter, filters, d, dialect)
    ensures var x := Scan(p, limit);
            && Inv(w, x, Start(x, partition))
            && forall d :: d in Concat(Run(w, x, Start(x, partition))) ==>
                 d in w.hits && MatchesAll(p.baseFilter, d, dialect)
  {
    StreamIsComplete(w, Scan(p, limit), partition);
  }

  /** The same for a scan fanned out over any number of slices, at every point of every interleaving. */
  lemma BaseFilterHoldsInEveryInterleaving(p: Provider, filters: seq<Expr>, limit: Option<nat>, c: Cluster<Doc>,
                                           schedule: seq<nat>, dialect: Dialect)
    requires FansOut(Scan(p, limit)) && Sliced(c, Scan(p, limit).partitions)
    requires forall k :: 0 <= k < |schedule| ==> schedule[k] < Scan(p, limit).partitions
    requires forall d :: d in c.hits ==> Admits(p.baseFilter, filters, d, dialect)
    ensures var x := Scan(p, limit);
            && SystemInv(c, x, Begin(x))
            && forall d :: d in Interleave(c, x, Begin(x), schedule).out ==>
                 d in c.hits && MatchesAll(p.baseFilter, d, dialect)
  {
    EmittedAreHits(c, Scan(p, limit), schedule);
  }

  // ----- Cursor pagination

  lemma {:induction false} KeepInOrder(sort: seq<SortField>, docs: seq<Doc>, q: Doc -> bool)
    requires InOrder(sort, docs)
    ensures InOrder(sort, Keep(docs, q))
    ensures Sorted(sort, docs) ==> Sorted(sort, Keep(docs, q))
  {
    if docs != [] {
      var rest := Keep(docs[1..], q);
      KeepInOrder(sort, docs[1..], q);
      KeptRows(docs[1..], q);
      forall j | 0 <= j < |rest|
        ensures !Precedes(sort, KeyOf(sort, rest[j]), KeyOf(sort, docs[0]))
        ensures Sorted(sort, docs) ==> Precedes(sort, KeyOf(sort, docs[0]), KeyOf(sort, rest[j]))
      {
        assert rest[j] in docs[1..];
        var i :| 0 <= i < |docs[1..]| && docs[1..][i] == rest[j];
        assert docs[i + 1] == rest[j];
      }
    }
  }

  lemma KeepCommutes<T>(rows: seq<T>, p: T -> bool, q: T -> bool)
    ensures Keep(Keep(rows, p), q) == Keep(Keep(rows, q), p)
  {
    var pq := x => p(x) && q(x);
    KeepTwice(rows, p, q, pq);
    KeepTwice(rows, q, p, pq);
  }

  /** The caller's loop over a table with a sort and a cursor returns exactly the wanted rows after the
      cursor, in sort order, if and only if its pages never lose the thread: no page that the filters left to
      DataFusion reject as a whole comes before a row they pass, and no page ends inside a tie that goes on
      passing. Moving the cursor changes nothing else of the scan. */
  lemma PagedQuery(docs: seq<Doc>, p: Provider, filters: seq<Expr>, limit: Option<nat>, cursor: Key, dialect: Dialect)
    requires Ready(docs, filters) && InOrder(p.sort, docs) && |cursor| == |p.sort|
    requires p.searchAfter.Some? && Tighter(limit, p.maxRows) != Some(0)
    ensures var hits, x := Hits(docs, p, filters, dialect), Scan(p, limit);
            && ReadsPages(x) && InOrder(p.sort, hits)
            && (forall next :: Scan(p.(searchAfter := Some(next)), limit) == x)
            && PageRows(x) == Capped(Max(p.pageSize, 1), Tighter(limit, p.maxRows))
            && (ReadKept(p.sort, hits, x, cursor, Residual(filters, dialect)) ==
                WantedRows(After(p.sort, docs, cursor), p.baseFilter, filters, dialect) <==>
                Unbroken(p.sort, After(p.sort, hits, cursor), Residual(filters, dialect), PageRows(x)))
  {
    var hits, x := Hits(docs, p, filters, dialect), Scan(p, limit);
    var after := After(p.sort, docs, cursor);
    var a := d => Admits(p.baseFilter, filters, d, dialect);
    KeepInOrder(p.sort, docs, a);
    KeepCommutes(docs, a, d => Precedes(p.sort, cursor, KeyOf(p.sort, d)));
    assert After(p.sort, hits, cursor) == Keep(after, a);
    KeptRows(docs, d => Precedes(p.sort, cursor, KeyOf(p.sort, d)));
    WholeScanIsExact(after, p.baseFilter, filters, dialect);
    ReadKeptCompleteIff(p.sort, hits, x, cursor, Residual(filters, dialect));
  }

  /** When every filter translates and no two rows share their sort values, the loop returns exactly the wanted
      rows after the cursor. */
  lemma PagedQueryIsExact(docs: seq<Doc>, p: Provider, filters: seq<Expr>, limit: Option<nat>, cursor: Key,
                          dialect: Dialect)
    requires Ready(docs, filters) && Sorted(p.sort, docs) && |cursor| == |p.sort|
    requires p.searchAfter.Some? && Tighter(limit, p.maxRows) != Some(0)
    requires forall f :: f in filters ==> ExprToQuery(f).Some?
    ensures var hits, x := Hits(docs, p, filters, dialect), Scan(p, limit);
            && ReadsPages(x) && InOrder(p.sort, hits)
            && ReadAll(p.sort, hits, x, cursor) == WantedRows(After(p.sort, docs, cursor), p.baseFilter, filters, dialect)
  {
    var hits, x := Hits(docs, p, filters, dialect), Scan(p, limit);
    var after := After(p.sort, docs, cursor);
    var a := d => Admits(p.baseFilter, filters, d, dialect);
    SortedIsInOrder(p.sort, docs);
    KeepInOrder(p.sort, docs, a);
    ReadAllEnumerates(p.sort, hits, x, cursor);
    KeepCommutes(docs, a, d => Precedes(p.sort, cursor, KeyOf(p.sort, d)));
    KeptRows(docs, d => Precedes(p.sort, cursor, KeyOf(p.sort, d)));
    WholeScanIsExact(after, p.baseFilter, filters, dialect);
    forall d ensures PassesResidual(filters, d, dialect) {
      ResidualFilters(filters, d, dialect);
    }
    KeepEverything(Keep(after, a), Residual(filters, dialect));
  }
}
