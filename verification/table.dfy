/** Whole scans (src/table.rs): the search body, which filters DataFusion keeps, and the rows that
    come out of both together. */
module Table {
  import opened Prelude
  import opened Sql
  import opened QueryDsl
  import opened Pushdown
  import opened Exactness
  import opened Safety

  datatype SortField = SortField(field: string, ascending: bool)

  const DEFAULT_PAGE_SIZE: nat := 5_000

  /** The settings of a table; `with_*` consumes one and returns the next. */
  datatype Provider = Provider(
    pageSize: nat,
    maxRows: Option<nat>,
    partitions: nat,
    baseFilter: seq<Query>,
    sort: seq<SortField>,
    searchAfter: Option<seq<Json>>)

  datatype Body = Body(
    query: Query,
    source: seq<string>,
    sort: Option<seq<(string, string)>>,
    searchAfter: Option<seq<Json>>)

  datatype PushDown = ExactPushDown | Unsupported

  function SupportsFiltersPushdown(filters: seq<Expr>): seq<PushDown> {
    seq(|filters|, i requires 0 <= i < |filters| =>
      if ExprToQuery(filters[i]).Some? then ExactPushDown else Unsupported)
  }

  /** The clauses of the filters that translate, in order. */
  function Translated(filters: seq<Expr>): seq<Query> {
    if filters == [] then []
    else (match ExprToQuery(filters[0]) case None => [] case Some(q) => [q]) + Translated(filters[1..])
  }

  /** `search_body`: the clause list grows from the base filter, then the optional keys are set. */
  method SearchBody(p: Provider, projected: seq<string>, filters: seq<Expr>) returns (body: Body)
    ensures forall d: Doc, dialect: Dialect :: Matches(body.query, d, dialect) <==> Admits(p.baseFilter, filters, d, dialect)
    ensures body.source == projected
    ensures body.sort.Some? <==> p.sort != []
    ensures body.sort.Some? ==>
              && |body.sort.value| == |p.sort|
              && forall i :: 0 <= i < |p.sort| ==>
                   body.sort.value[i] == (p.sort[i].field, if p.sort[i].ascending then "asc" else "desc")
    ensures body.searchAfter == p.searchAfter
  {
    var clauses := p.baseFilter;
    clauses := clauses + Translated(filters);
    var query := if clauses == [] then MatchAll else Filter(clauses);
    body := Body(query, projected, None, None);
    if p.sort != [] {
      body := body.(sort := Some(seq(|p.sort|, i requires 0 <= i < |p.sort| =>
                                   (p.sort[i].field, if p.sort[i].ascending then "asc" else "desc"))));
    }
    if p.searchAfter.Some? {
      body := body.(searchAfter := p.searchAfter);
    }
    forall d: Doc, dialect: Dialect
      ensures Matches(body.query, d, dialect) <==> Admits(p.baseFilter, filters, d, dialect)
    {
      ClausesAdmit(p.baseFilter, filters, d, dialect);
    }
  }

  // ----- What the two sides of a scan let through

  ghost predicate MatchesAll(clauses: seq<Query>, d: Doc, dialect: Dialect) {
    forall q :: q in clauses ==> Matches(q, d, dialect)
  }

  /** What OpenSearch is asked for: the base filter and every filter that translates. */
  ghost predicate Admits(base: seq<Query>, filters: seq<Expr>, d: Doc, dialect: Dialect) {
    && MatchesAll(base, d, dialect)
    && forall f :: f in filters && ExprToQuery(f).Some? ==> Matches(ExprToQuery(f).value, d, dialect)
  }

  /** What DataFusion checks again: every filter reported `Unsupported`. */
  ghost predicate PassesResidual(filters: seq<Expr>, d: Doc, dialect: Dialect) {
    forall i :: 0 <= i < |filters| && SupportsFiltersPushdown(filters)[i].Unsupported? ==>
      TruthOf(filters[i], d, dialect) == True
  }

  /** What the query asks for. */
  ghost predicate Wanted(base: seq<Query>, filters: seq<Expr>, d: Doc, dialect: Dialect) {
    && MatchesAll(base, d, dialect)
    && forall f :: f in filters ==> TruthOf(f, d, dialect) == True
  }

  lemma {:induction false} TranslatedClauses(filters: seq<Expr>, q: Query)
    ensures q in Translated(filters) <==> exists f :: f in filters && ExprToQuery(f) == Some(q)
  {
    if filters != [] {
      var rest := filters[1..];
      TranslatedClauses(rest, q);
      if q in Translated(rest) {
        var f :| f in rest && ExprToQuery(f) == Some(q);
        assert f in filters;
      }
      if ExprToQuery(filters[0]) == Some(q) {
        assert filters[0] in filters;
      }
      if f :| f in filters && ExprToQuery(f) == Some(q) {
        assert f == filters[0] || f in rest;
      }
    }
  }

  lemma ClausesAdmit(base: seq<Query>, filters: seq<Expr>, d: Doc, dialect: Dialect)
    ensures MatchesAll(base + Translated(filters), d, dialect) <==> Admits(base, filters, d, dialect)
  {
    forall q ensures q in Translated(filters) <==> exists f :: f in filters && ExprToQuery(f) == Some(q) {
      TranslatedClauses(filters, q);
    }
    forall f | f in filters && ExprToQuery(f).Some?
      ensures ExprToQuery(f).value in base + Translated(filters)
    {
    }
  }

  function Keep<T>(rows: seq<T>, p: T -> bool): seq<T> {
    if rows == [] then [] else (if p(rows[0]) then [rows[0]] else []) + Keep(rows[1..], p)
  }

  /** The rows of a scan: what the index returns for the body, filtered again by DataFusion. */
  ghost function ScanRows(docs: seq<Doc>, base: seq<Query>, filters: seq<Expr>, dialect: Dialect): seq<Doc> {
    Keep(Keep(docs, d => Admits(base, filters, d, dialect)), d => PassesResidual(filters, d, dialect))
  }

  ghost function WantedRows(docs: seq<Doc>, base: seq<Query>, filters: seq<Expr>, dialect: Dialect): seq<Doc> {
    Keep(docs, d => Wanted(base, filters, d, dialect))
  }

  lemma {:induction false} KeepTwice<T>(rows: seq<T>, p: T -> bool, q: T -> bool, r: T -> bool)
    requires forall x :: x in rows ==> (r(x) <==> p(x) && q(x))
    ensures Keep(Keep(rows, p), q) == Keep(rows, r)
  {
    if rows != [] {
      KeepTwice(rows[1..], p, q, r);
      if p(rows[0]) {
        assert Keep(rows, p)[1..] == Keep(rows[1..], p);
      } else {
        assert Keep(rows, p) == Keep(rows[1..], p);
      }
    }
  }

  lemma {:induction false} KeptRows<T>(rows: seq<T>, p: T -> bool)
    ensures forall x :: x in Keep(rows, p) <==> x in rows && p(x)
  {
    if rows != [] {
      KeptRows(rows[1..], p);
      assert forall x :: x in rows <==> x == rows[0] || x in rows[1..];
    }
  }

  /** Every filter that translates is free of the two literal forms that are not exact. */
  ghost predicate FaithfulFilters(filters: seq<Expr>) {
    forall f :: f in filters && ExprToQuery(f).Some? ==> Faithful(f)
  }

  /** The polarity condition of `PushdownIsExact`, for every filter that translates. */
  ghost predicate PolarityReady(filters: seq<Expr>, d: Doc) {
    forall f :: f in filters && ExprToQuery(f).Some? ==> Typed(f, d) && OddColumnsPresent(f, d, false)
  }

  lemma ResidualFilters(filters: seq<Expr>, d: Doc, dialect: Dialect)
    ensures PassesResidual(filters, d, dialect) <==>
            forall f :: f in filters && ExprToQuery(f).None? ==> TruthOf(f, d, dialect) == True
  {
    forall i | 0 <= i < |filters|
      ensures SupportsFiltersPushdown(filters)[i].Unsupported? <==> ExprToQuery(filters[i]).None?
    {
    }
  }

  /** No filter that translates makes the mistake of that side: losing a selected row (`odd` false) or
      keeping a rejected one (`odd` true). */
  ghost predicate SafeFilters(filters: seq<Expr>, odd: bool, dialect: Dialect) {
    forall f :: f in filters && ExprToQuery(f).Some? ==> Safe(f, odd, dialect)
  }

  lemma FaithfulFiltersAreSafe(filters: seq<Expr>, odd: bool, dialect: Dialect)
    requires FaithfulFilters(filters)
    ensures SafeFilters(filters, odd, dialect)
  {
    forall f | f in filters && ExprToQuery(f).Some? ensures Safe(f, odd, dialect) {
      FaithfulIsSafe(f, odd, dialect);
    }
  }

  /** What index and residual filter let through together, on one document. */
  ghost predicate Scanned(base: seq<Query>, filters: seq<Expr>, d: Doc, dialect: Dialect) {
    Admits(base, filters, d, dialect) && PassesResidual(filters, d, dialect)
  }

  lemma ScanPredicate(base: seq<Query>, filters: seq<Expr>, d: Doc, dialect: Dialect)
    ensures Scanned(base, filters, d, dialect) ==> MatchesAll(base, d, dialect)
    ensures SafeFilters(filters, false, dialect) && Wanted(base, filters, d, dialect) ==>
              Scanned(base, filters, d, dialect)
    ensures SafeFilters(filters, true, dialect) && Scanned(base, filters, d, dialect) ==>
              forall f :: f in filters ==> TruthOf(f, d, dialect) != False
    ensures FaithfulFilters(filters) && PolarityReady(filters, d) ==>
              (Scanned(base, filters, d, dialect) <==> Wanted(base, filters, d, dialect))
  {
    ResidualFilters(filters, d, dialect);
    forall f | f in filters && ExprToQuery(f).Some?
      ensures Safe(f, false, dialect) && TruthOf(f, d, dialect) == True ==> Matches(ExprToQuery(f).value, d, dialect)
      ensures Safe(f, true, dialect) && TruthOf(f, d, dialect) == False ==> !Matches(ExprToQuery(f).value, d, dialect)
      ensures FaithfulFilters(filters) && PolarityReady(filters, d) ==>
                (Matches(ExprToQuery(f).value, d, dialect) <==> TruthOf(f, d, dialect) == True)
    {
      PushdownAgreesWhereSqlDecides(f, d, dialect);
      if FaithfulFilters(filters) && PolarityReady(filters, d) {
        PushdownIsExact(f, d, dialect);
      }
    }
  }

  lemma ScannedRows(docs: seq<Doc>, base: seq<Query>, filters: seq<Expr>, dialect: Dialect)
    ensures ScanRows(docs, base, filters, dialect) == Keep(docs, d => Scanned(base, filters, d, dialect))
    ensures forall d :: d in ScanRows(docs, base, filters, dialect) <==> d in docs && Scanned(base, filters, d, dialect)
  {
    var pq := d => Scanned(base, filters, d, dialect);
    KeepTwice(docs, d => Admits(base, filters, d, dialect), d => PassesResidual(filters, d, dialect), pq);
    KeptRows(docs, pq);
  }

  /** On documents that meet the polarity condition a scan returns exactly the rows the query asks
      for, in index order: the base filter and every filter, pushed down or not. */
  lemma WholeScanIsExact(docs: seq<Doc>, base: seq<Query>, filters: seq<Expr>, dialect: Dialect)
    requires FaithfulFilters(filters)
    requires forall d :: d in docs ==> PolarityReady(filters, d)
    ensures ScanRows(docs, base, filters, dialect) == WantedRows(docs, base, filters, dialect)
  {
    var p := d => Admits(base, filters, d, dialect);
    var q := d => PassesResidual(filters, d, dialect);
    var r := d => Wanted(base, filters, d, dialect);
    forall d | d in docs ensures r(d) <==> p(d) && q(d) {
      ScanPredicate(base, filters, d, dialect);
    }
    KeepTwice(docs, p, q, r);
  }

  /** On any documents a scan returns every row the query asks for, as often and in the same order. */
  lemma WholeScanLosesNothing(docs: seq<Doc>, base: seq<Query>, filters: seq<Expr>, dialect: Dialect)
    requires SafeFilters(filters, false, dialect)
    ensures Keep(ScanRows(docs, base, filters, dialect), d => Wanted(base, filters, d, dialect)) ==
            WantedRows(docs, base, filters, dialect)
  {
    var r := d => Wanted(base, filters, d, dialect);
    ScannedRows(docs, base, filters, dialect);
    forall d | d in docs ensures r(d) <==> Scanned(base, filters, d, dialect) && r(d) {
      ScanPredicate(base, filters, d, dialect);
    }
    KeepTwice(docs, d => Scanned(base, filters, d, dialect), r, r);
  }

  /** On any documents nothing a scan returns is rejected by a filter. */
  lemma WholeScanKeepsNoRejectedRow(docs: seq<Doc>, base: seq<Query>, filters: seq<Expr>, dialect: Dialect)
    requires SafeFilters(filters, true, dialect)
    ensures forall d, f :: d in ScanRows(docs, base, filters, dialect) && f in filters ==>
              TruthOf(f, d, dialect) != False
  {
    ScannedRows(docs, base, filters, dialect);
    forall d | d in ScanRows(docs, base, filters, dialect)
      ensures forall f :: f in filters ==> TruthOf(f, d, dialect) != False
    {
      ScanPredicate(base, filters, d, dialect);
    }
  }

  /** Faithful filters make neither mistake, on any documents. */
  lemma FaithfulScanAgrees(docs: seq<Doc>, base: seq<Query>, filters: seq<Expr>, dialect: Dialect)
    requires FaithfulFilters(filters)
    ensures Keep(ScanRows(docs, base, filters, dialect), d => Wanted(base, filters, d, dialect)) ==
            WantedRows(docs, base, filters, dialect)
    ensures forall d, f :: d in ScanRows(docs, base, filters, dialect) && f in filters ==>
              TruthOf(f, d, dialect) != False
  {
    FaithfulFiltersAreSafe(filters, false, dialect);
    FaithfulFiltersAreSafe(filters, true, dialect);
    WholeScanLosesNothing(docs, base, filters, dialect);
    WholeScanKeepsNoRejectedRow(docs, base, filters, dialect);
  }

  /** Whatever the filters of the query, nothing a scan returns fails the base filter. */
  lemma BaseFilterAlwaysHolds(docs: seq<Doc>, base: seq<Query>, filters: seq<Expr>, dialect: Dialect)
    ensures forall d :: d in ScanRows(docs, base, filters, dialect) ==> d in docs && MatchesAll(base, d, dialect)
  {
    ScannedRows(docs, base, filters, dialect);
  }

  // ----- Capping before filtering

  lemma {:induction false} KeepEverything<T>(rows: seq<T>, p: T -> bool)
    requires forall x :: x in rows ==> p(x)
    ensures Keep(rows, p) == rows
  {
    if rows != [] {
      assert rows[0] in rows;
      KeepEverything(rows[1..], p);
    }
  }

  lemma {:induction false} KeepConcat<T>(a: seq<T>, b: seq<T>, p: T -> bool)
    ensures Keep(a + b, p) == Keep(a, p) + Keep(b, p)
  {
    if a == [] {
      assert a + b == b;
    } else {
      var head, rest := if p(a[0]) then [a[0]] else [], Keep(a[1..], p);
      assert (a + b)[1..] == a[1..] + b;
      calc {
        Keep(a + b, p);
        head + Keep(a[1..] + b, p);
        { KeepConcat(a[1..], b, p); }
        head + (rest + Keep(b, p));
        (head + rest) + Keep(b, p);
        Keep(a, p) + Keep(b, p);
      }
    }
  }

  lemma {:induction false} KeepCount<T>(rows: seq<T>, p: T -> bool)
    ensures |Keep(rows, p)| <= |rows|
    ensures |Keep(rows, p)| == |rows| <==> forall x :: x in rows ==> p(x)
    ensures Keep(rows, p) == [] <==> forall x :: x in rows ==> !p(x)
  {
    if rows != [] {
      KeepCount(rows[1..], p);
      assert forall x :: x in rows <==> x == rows[0] || x in rows[1..];
    }
  }

  /** Cutting after `n` rows and then filtering: what a cap does to the filters left to DataFusion. */
  predicate CutsClean<T(==)>(rows: seq<T>, p: T -> bool, n: nat) {
    || |rows| <= n
    || (forall x :: x in rows[..n] ==> p(x))
    || (forall x :: x in rows[n..] ==> !p(x))
  }

  /** Filtering the first `n` rows gives the first `n` of the filtered rows if and only if there are no more
      than `n` rows, or all of the first `n` pass, or none after them does. */
  lemma CutThenKeepIff<T>(rows: seq<T>, p: T -> bool, n: nat)
    ensures var cut, all := rows[..if n < |rows| then n else |rows|], Keep(rows, p);
            Keep(cut, p) == all[..if n < |all| then n else |all|] <==> CutsClean(rows, p, n)
  {
    KeepCount(rows, p);
    if n < |rows| {
      var a, b := Keep(rows[..n], p), Keep(rows[n..], p);
      assert rows == rows[..n] + rows[n..];
      KeepConcat(rows[..n], rows[n..], p);
      KeepCount(rows[..n], p);
      KeepCount(rows[n..], p);
      assert (a + b)[..|a|] == a;
    } else {
      assert rows[..|rows|] == rows && Keep(rows, p)[..|Keep(rows, p)|] == Keep(rows, p);
    }
  }

  /** Nothing that passes is cut away if and only if nothing after the cut passes. */
  lemma CutLosesNothingIff<T>(rows: seq<T>, p: T -> bool, n: nat)
    ensures Keep(rows[..if n < |rows| then n else |rows|], p) == Keep(rows, p) <==>
            n < |rows| ==> forall x :: x in rows[n..] ==> !p(x)
  {
    if n < |rows| {
      assert rows == rows[..n] + rows[n..];
      KeepConcat(rows[..n], rows[n..], p);
      KeepCount(rows[n..], p);
    } else {
      assert rows[..|rows|] == rows;
    }
  }
}
