/** Caller-driven pagination (src/table.rs, `with_sort` and `with_search_after`): a table with a sort
    and a cursor reads one page of the rows after the cursor; the caller feeds the last row's sort
    values back in. */
module SearchAfter {
  import opened Prelude
  import opened Sql
  import opened Table
  import opened ExecPlan
  import opened Paging

  // ----- The sort order

  /** The sort values of a row; an absent field has none. */
  type Key = seq<Option<Scalar>>

  function KeyOf(sort: seq<SortField>, d: Doc): (key: Key)
    ensures |key| == |sort|
  {
    if sort == [] then []
    else [if sort[0].field in d then Some(d[sort[0].field]) else None] + KeyOf(sort[1..], d)
  }

  /** Each part of a key is the document's value of that sort field. */
  lemma {:induction false} KeyOfAt(sort: seq<SortField>, d: Doc, i: nat)
    requires i < |sort|
    ensures KeyOf(sort, d)[i] == if sort[i].field in d then Some(d[sort[i].field]) else None
  {
    if i > 0 {
      KeyOfAt(sort[1..], d, i - 1);
    }
  }

  function Rank(x: Scalar): int {
    match x case Str(_) => 0 case Bool(_) => 1 case Num(_) => 2 case Date(_) => 3
  }

  function ScalarOrder(x: Scalar, y: Scalar): Order {
    match (x, y)
    case (Str(a), Str(b)) => CompareText(a, b)
    case (Bool(a), Bool(b)) => CompareBool(a, b)
    case (Num(a), Num(b)) => CompareReal(a, b)
    case (Date(a), Date(b)) => CompareInt(a, b)
    case _ => CompareInt(Rank(x), Rank(y))
  }

  /** Absent values come last in both directions. */
  function PartOrder(a: Option<Scalar>, b: Option<Scalar>, ascending: bool): Order {
    match (a, b)
    case (None, None) => Equal
    case (None, Some(_)) => Greater
    case (Some(_), None) => Less
    case (Some(x), Some(y)) => if ascending then ScalarOrder(x, y) else ScalarOrder(y, x)
  }

  function KeyOrder(sort: seq<SortField>, a: Key, b: Key): Order
    requires |a| == |b| == |sort|
  {
    if sort == [] then Equal
    else
      var o := PartOrder(a[0], b[0], sort[0].ascending);
      if o != Equal then o else KeyOrder(sort[1..], a[1..], b[1..])
  }

  lemma PartOrderTransitive(a: Option<Scalar>, b: Option<Scalar>, c: Option<Scalar>, ascending: bool)
    requires PartOrder(a, b, ascending) == Less && PartOrder(b, c, ascending) == Less
    ensures PartOrder(a, c, ascending) == Less
  {
    if a.Some? && b.Some? && c.Some? {
      if a.value.Str? && b.value.Str? && c.value.Str? {
        if ascending {
          CompareTextTransitive(a.value.s, b.value.s, c.value.s);
        } else {
          CompareTextTransitive(c.value.s, b.value.s, a.value.s);
        }
      }
      ScalarOrderSwaps(a.value, b.value);
      ScalarOrderSwaps(b.value, c.value);
      ScalarOrderSwaps(a.value, c.value);
    }
  }

  lemma ScalarOrderSwaps(x: Scalar, y: Scalar)
    ensures ScalarOrder(y, x) == ScalarOrder(x, y).Swap()
    ensures ScalarOrder(x, y) == Equal <==> x == y
  {
    if x.Str? && y.Str? {
      CompareTextSwaps(x.s, y.s);
      CompareTextEqual(x.s, y.s);
    }
  }

  lemma PartOrderEqual(a: Option<Scalar>, b: Option<Scalar>, ascending: bool)
    ensures PartOrder(a, b, ascending) == Equal <==> a == b
    ensures PartOrder(b, a, ascending) == PartOrder(a, b, ascending).Swap()
  {
    if a.Some? && b.Some? {
      ScalarOrderSwaps(a.value, b.value);
    }
  }

  lemma {:induction false} KeyOrderTransitive(sort: seq<SortField>, a: Key, b: Key, c: Key)
    requires |a| == |b| == |c| == |sort|
    requires KeyOrder(sort, a, b) == Less && KeyOrder(sort, b, c) == Less
    ensures KeyOrder(sort, a, c) == Less
    decreases |sort|
  {
    if sort != [] {
      var asc := sort[0].ascending;
      PartOrderEqual(a[0], b[0], asc);
      PartOrderEqual(b[0], c[0], asc);
      if a[0] == b[0] && b[0] == c[0] {
        KeyOrderTransitive(sort[1..], a[1..], b[1..], c[1..]);
      } else if a[0] != b[0] && b[0] != c[0] {
        PartOrderTransitive(a[0], b[0], c[0], asc);
      }
    }
  }

  lemma {:induction false} KeyOrderSwaps(sort: seq<SortField>, a: Key, b: Key)
    requires |a| == |b| == |sort|
    ensures KeyOrder(sort, b, a) == KeyOrder(sort, a, b).Swap()
    ensures KeyOrder(sort, a, b) == Equal <==> a == b
    decreases |sort|
  {
    if sort != [] {
      PartOrderEqual(a[0], b[0], sort[0].ascending);
      KeyOrderSwaps(sort[1..], a[1..], b[1..]);
      assert a == [a[0]] + a[1..] && b == [b[0]] + b[1..];
    }
  }

  // ----- What the order computes

  /** The smaller of two values, on the values themselves. Values of different kinds, which one field does not
      hold, are ordered by kind. */
  ghost predicate Smaller(x: Scalar, y: Scalar) {
    match (x, y)
    case (Str(a), Str(b)) => TextBefore(a, b)
    case (Bool(a), Bool(b)) => !a && b
    case (Num(a), Num(b)) => a < b
    case (Date(a), Date(b)) => a < b
    case _ => Rank(x) < Rank(y)
  }

  /** At one field: a value before none, and the smaller before the larger, or the larger before the smaller
      where the sort descends. */
  ghost predicate FieldBefore(f: SortField, a: Option<Scalar>, b: Option<Scalar>) {
    && a.Some?
    && (b.Some? ==> if f.ascending then Smaller(a.value, b.value) else Smaller(b.value, a.value))
  }

  lemma ScalarOrderMeans(x: Scalar, y: Scalar)
    ensures ScalarOrder(x, y) == Less <==> Smaller(x, y)
  {
    if x.Str? && y.Str? {
      CompareTextMeans(x.s, y.s);
    }
  }

  lemma PartOrderMeans(f: SortField, a: Option<Scalar>, b: Option<Scalar>)
    ensures PartOrder(a, b, f.ascending) == Less <==> FieldBefore(f, a, b)
  {
    if a.Some? && b.Some? {
      ScalarOrderMeans(a.value, b.value);
      ScalarOrderMeans(b.value, a.value);
    }
  }

  /** The `i`th field decides: the keys agree before it and differ in the right direction at it. */
  ghost predicate DecidedAt(sort: seq<SortField>, a: Key, b: Key, i: nat)
    requires |a| == |b| == |sort|
  {
    i < |sort| && a[..i] == b[..i] && FieldBefore(sort[i], a[i], b[i])
  }

  ghost predicate ComesBefore(sort: seq<SortField>, a: Key, b: Key)
    requires |a| == |b| == |sort|
  {
    exists i: nat :: DecidedAt(sort, a, b, i)
  }

  lemma {:induction false} LessIsDecided(sort: seq<SortField>, a: Key, b: Key) returns (i: nat)
    requires |a| == |b| == |sort| && KeyOrder(sort, a, b) == Less
    ensures DecidedAt(sort, a, b, i)
    decreases |sort|
  {
    PartOrderEqual(a[0], b[0], sort[0].ascending);
    if a[0] == b[0] {
      i := LessIsDecided(sort[1..], a[1..], b[1..]);
      i := i + 1;
      assert a[..i] == [a[0]] + a[1..][..i - 1] && b[..i] == [b[0]] + b[1..][..i - 1];
    } else {
      PartOrderMeans(sort[0], a[0], b[0]);
      i := 0;
    }
  }

  lemma {:induction false} DecidedIsLess(sort: seq<SortField>, a: Key, b: Key, i: nat)
    requires |a| == |b| == |sort| && DecidedAt(sort, a, b, i)
    ensures KeyOrder(sort, a, b) == Less
    decreases |sort|
  {
    PartOrderEqual(a[0], b[0], sort[0].ascending);
    if i == 0 {
      PartOrderMeans(sort[0], a[0], b[0]);
    } else {
      assert a[0] == a[..i][0] == b[..i][0] == b[0];
      assert a[1..][..i - 1] == a[..i][1..] && b[1..][..i - 1] == b[..i][1..];
      DecidedIsLess(sort[1..], a[1..], b[1..], i - 1);
    }
  }

  /** One key comes before another if and only if at the first field where they differ it has the smaller
      value, or the larger where the sort descends, or has one where the other has none. */
  lemma KeyOrderMeans(sort: seq<SortField>, a: Key, b: Key)
    requires |a| == |b| == |sort|
    ensures KeyOrder(sort, a, b) == Less <==> ComesBefore(sort, a, b)
  {
    if KeyOrder(sort, a, b) == Less {
      var i := LessIsDecided(sort, a, b);
    }
    if i: nat :| DecidedAt(sort, a, b, i) {
      DecidedIsLess(sort, a, b, i);
    }
  }

  /** Every direction turned round. */
  function Turned(sort: seq<SortField>): seq<SortField> {
    seq(|sort|, i requires 0 <= i < |sort| => sort[i].(ascending := !sort[i].ascending))
  }

  /** Turning every direction round turns round the order of keys without absent values. */
  lemma {:induction false} TurnedOrder(sort: seq<SortField>, a: Key, b: Key)
    requires |a| == |b| == |sort| && None !in a && None !in b
    ensures KeyOrder(Turned(sort), a, b) == KeyOrder(sort, b, a)
    decreases |sort|
  {
    if sort != [] {
      assert a[0] in a && b[0] in b;
      assert Turned(sort)[1..] == Turned(sort[1..]);
      PartOrderEqual(a[0], b[0], sort[0].ascending);
      TurnedOrder(sort[1..], a[1..], b[1..]);
    }
  }

  // ----- The server's answer

  predicate Precedes(sort: seq<SortField>, a: Key, b: Key) {
    |a| == |b| == |sort| && KeyOrder(sort, a, b) == Less
  }

  /** In sort order. Rows may share their sort values. */
  predicate InOrder(sort: seq<SortField>, rows: seq<Doc>) {
    forall i, j :: 0 <= i < j < |rows| ==> !Precedes(sort, KeyOf(sort, rows[j]), KeyOf(sort, rows[i]))
  }

  /** In sort order, with no two rows sharing their sort values. */
  predicate Sorted(sort: seq<SortField>, rows: seq<Doc>) {
    forall i, j :: 0 <= i < j < |rows| ==> Precedes(sort, KeyOf(sort, rows[i]), KeyOf(sort, rows[j]))
  }

  lemma SortedIsInOrder(sort: seq<SortField>, rows: seq<Doc>)
    requires Sorted(sort, rows)
    ensures InOrder(sort, rows)
    ensures forall i, j :: 0 <= i < j < |rows| ==> KeyOf(sort, rows[i]) != KeyOf(sort, rows[j])
  {
    forall i, j | 0 <= i < j < |rows|
      ensures !Precedes(sort, KeyOf(sort, rows[j]), KeyOf(sort, rows[i]))
      ensures KeyOf(sort, rows[i]) != KeyOf(sort, rows[j])
    {
      KeyOrderSwaps(sort, KeyOf(sort, rows[i]), KeyOf(sort, rows[j]));
    }
  }

  /** The rows strictly after a cursor, in order. */
  function After(sort: seq<SortField>, rows: seq<Doc>, cursor: Key): seq<Doc> {
    Keep(rows, d => Precedes(sort, cursor, KeyOf(sort, d)))
  }

  /** What is after a cursor, on the documents: those whose fields agree with it up to one that comes later. */
  lemma AfterMeans(sort: seq<SortField>, rows: seq<Doc>, cursor: Key, d: Doc)
    requires |cursor| == |sort|
    ensures d in After(sort, rows, cursor) <==>
            d in rows && ComesBefore(sort, cursor, KeyOf(sort, d))
  {
    var p := row => Precedes(sort, cursor, KeyOf(sort, row));
    KeptRows(rows, p);
    assert After(sort, rows, cursor) == Keep(rows, p);
    KeyOrderMeans(sort, cursor, KeyOf(sort, d));
  }

  lemma PrecedesThrough(sort: seq<SortField>, a: Key, b: Key, c: Key)
    requires Precedes(sort, a, b) && |c| == |sort| && !Precedes(sort, c, b)
    ensures Precedes(sort, a, c)
  {
    KeyOrderSwaps(sort, b, c);
    if b != c {
      KeyOrderTransitive(sort, a, b, c);
    }
  }

  /** In sort order the rows after a cursor are a suffix. */
  lemma {:induction false} AfterIsSuffix(sort: seq<SortField>, rows: seq<Doc>, cursor: Key) returns (k: nat)
    requires InOrder(sort, rows) && |cursor| == |sort|
    ensures k <= |rows| && After(sort, rows, cursor) == rows[k..]
    ensures forall i :: 0 <= i < |rows| ==> (Precedes(sort, cursor, KeyOf(sort, rows[i])) <==> k <= i)
    decreases |rows|
  {
    if rows == [] {
      k := 0;
    } else if Precedes(sort, cursor, KeyOf(sort, rows[0])) {
      forall i | 0 < i < |rows| ensures Precedes(sort, cursor, KeyOf(sort, rows[i])) {
        PrecedesThrough(sort, cursor, KeyOf(sort, rows[0]), KeyOf(sort, rows[i]));
      }
      KeepEverything(rows, d => Precedes(sort, cursor, KeyOf(sort, d)));
      k := 0;
    } else {
      var rest := rows[1..];
      var j := AfterIsSuffix(sort, rest, cursor);
      assert forall i :: 0 < i < |rows| ==> rows[i] == rest[i - 1];
      k := j + 1;
    }
  }

  /** Where the rows that share the sort values of the `j`th end. */
  function TieEnd(sort: seq<SortField>, rows: seq<Doc>, j: nat): (g: nat)
    requires j < |rows|
    ensures j < g <= |rows|
    decreases |rows| - j
  {
    if j + 1 < |rows| && KeyOf(sort, rows[j + 1]) == KeyOf(sort, rows[j]) then TieEnd(sort, rows, j + 1) else j + 1
  }

  lemma {:induction false} TieEndIs(sort: seq<SortField>, rows: seq<Doc>, j: nat)
    requires InOrder(sort, rows) && j < |rows|
    ensures forall k :: j < k < |rows| ==> (k < TieEnd(sort, rows, j) <==> KeyOf(sort, rows[k]) == KeyOf(sort, rows[j]))
    ensures forall k :: j < k < |rows| ==>
              (k < TieEnd(sort, rows, j) <==> !Precedes(sort, KeyOf(sort, rows[j]), KeyOf(sort, rows[k])))
    decreases |rows| - j
  {
    var key := KeyOf(sort, rows[j]);
    KeyOrderSwaps(sort, key, key);
    if j + 1 < |rows| {
      var next := KeyOf(sort, rows[j + 1]);
      KeyOrderSwaps(sort, key, next);
      if next == key {
        TieEndIs(sort, rows, j + 1);
      } else {
        forall k | j < k < |rows| ensures Precedes(sort, key, KeyOf(sort, rows[k])) && KeyOf(sort, rows[k]) != key {
          if k > j + 1 {
            PrecedesThrough(sort, key, next, KeyOf(sort, rows[k]));
          }
        }
      }
    }
  }

  /** Two cuts that split the rows in the same way are one. */
  lemma OneCut(sort: seq<SortField>, rows: seq<Doc>, cursor: Key, i: nat, k: nat, g: nat)
    requires i < |rows| && i < k <= |rows| && i < g <= |rows|
    requires forall m :: i < m < |rows| ==> (Precedes(sort, cursor, KeyOf(sort, rows[m])) <==> k <= m)
    requires forall m :: i < m < |rows| ==> (Precedes(sort, cursor, KeyOf(sort, rows[m])) <==> g <= m)
    ensures k == g
  {
    assert k < |rows| ==> Precedes(sort, cursor, KeyOf(sort, rows[k]));
    assert g < |rows| ==> Precedes(sort, cursor, KeyOf(sort, rows[g]));
  }

  /** The rows after the `i`th row's sort values: the rest of its ties is passed over. */
  lemma AfterRow(sort: seq<SortField>, rows: seq<Doc>, i: nat)
    requires InOrder(sort, rows) && i < |rows|
    ensures After(sort, rows, KeyOf(sort, rows[i])) == rows[TieEnd(sort, rows, i)..]
  {
    var cursor := KeyOf(sort, rows[i]);
    var k := AfterIsSuffix(sort, rows, cursor);
    KeyOrderSwaps(sort, cursor, cursor);
    assert !Precedes(sort, cursor, KeyOf(sort, rows[i]));
    TieEndIs(sort, rows, i);
    OneCut(sort, rows, cursor, i, k, TieEnd(sort, rows, i));
  }

  lemma SuffixInOrder(sort: seq<SortField>, rows: seq<Doc>, k: nat)
    requires InOrder(sort, rows) && k <= |rows|
    ensures InOrder(sort, rows[k..])
  {
    assert forall i :: 0 <= i < |rows| - k ==> rows[k..][i] == rows[k + i];
  }

  /** Moving the cursor forward looks no further back than the first cursor did. */
  lemma AfterAgain(sort: seq<SortField>, rows: seq<Doc>, cursor: Key, later: Key)
    requires InOrder(sort, rows) && Precedes(sort, cursor, later)
    ensures After(sort, rows, later) == After(sort, After(sort, rows, cursor), later)
  {
    var p, q := d => Precedes(sort, cursor, KeyOf(sort, d)), d => Precedes(sort, later, KeyOf(sort, d));
    forall d | d in rows && q(d) ensures p(d) {
      KeyOrderTransitive(sort, cursor, later, KeyOf(sort, d));
    }
    KeepTwice(rows, p, q, q);
  }

  /** Continuing from the `j`th row after a cursor. */
  lemma AfterPosition(sort: seq<SortField>, rows: seq<Doc>, cursor: Key, j: nat)
    requires InOrder(sort, rows) && |cursor| == |sort| && j < |After(sort, rows, cursor)|
    ensures var after := After(sort, rows, cursor);
            && InOrder(sort, after)
            && After(sort, rows, KeyOf(sort, after[j])) == after[TieEnd(sort, after, j)..]
  {
    var k := AfterIsSuffix(sort, rows, cursor);
    var after := After(sort, rows, cursor);
    SuffixInOrder(sort, rows, k);
    assert after[j] == rows[k + j];
    AfterAgain(sort, rows, cursor, KeyOf(sort, after[j]));
    AfterRow(sort, after, j);
  }

  // ----- The caller's loop

  function WorldAfter(sort: seq<SortField>, rows: seq<Doc>, cursor: Key): World<Doc> {
    World(After(sort, rows, cursor), None, true, _ => Some(""))
  }

  predicate ReadsPages(x: Inner) {
    Sound(x) && x.singlePage && x.fetch != Some(0)
  }

  /** One scan of a table with this cursor. */
  function ReadPage(sort: seq<SortField>, rows: seq<Doc>, x: Inner, cursor: Key): seq<Doc>
    requires ReadsPages(x)
  {
    var w := WorldAfter(sort, rows, cursor);
    StartIsReady(w, x, 0);
    Concat(Run(w, x, Start(x, 0)))
  }

  /** The rows a page holds when there are enough. */
  function PageRows(x: Inner): nat {
    Capped(x.pageSize, x.fetch)
  }

  lemma ReadPageIsFirst(sort: seq<SortField>, rows: seq<Doc>, x: Inner, cursor: Key)
    requires ReadsPages(x)
    ensures PageRows(x) >= 1
    ensures var after := After(sort, rows, cursor);
            ReadPage(sort, rows, x, cursor) == after[..Min(PageRows(x), |after|)]
  {
    StreamIsComplete(WorldAfter(sort, rows, cursor), x, 0);
  }

  /** The last row that passes. */
  lemma {:induction false} LastKept<T>(rows: seq<T>, p: T -> bool) returns (j: nat)
    requires Keep(rows, p) != []
    ensures j < |rows| && p(rows[j]) && Keep(rows, p)[|Keep(rows, p)| - 1] == rows[j]
    ensures Keep(rows, p) == Keep(rows[..j + 1], p)
    ensures forall k :: j < k < |rows| ==> !p(rows[k])
    decreases |rows|
  {
    var k := |rows| - 1;
    assert rows == rows[..k] + [rows[k]];
    KeepConcat(rows[..k], [rows[k]], p);
    assert Keep([rows[k]], p) == if p(rows[k]) then [rows[k]] else [];
    if p(rows[k]) {
      j := k;
      assert rows[..j + 1] == rows;
    } else {
      j := LastKept(rows[..k], p);
      assert rows[..k][..j + 1] == rows[..j + 1];
    }
  }

  /** The last of the first `n` rows that passes is the `j`th. */
  predicate LastPassing<T>(rows: seq<T>, p: T -> bool, n: nat, j: nat) {
    && j < |rows| && j < n && p(rows[j])
    && forall k :: j < k < n && k < |rows| ==> !p(rows[k])
  }

  lemma LastOfPage<T>(rows: seq<T>, p: T -> bool, n: nat) returns (j: nat)
    requires Keep(rows[..Min(n, |rows|)], p) != []
    ensures LastPassing(rows, p, n, j)
    ensures var page := Keep(rows[..Min(n, |rows|)], p); page == Keep(rows[..j + 1], p) && page[|page| - 1] == rows[j]
  {
    var read := rows[..Min(n, |rows|)];
    j := LastKept(read, p);
    assert read[..j + 1] == rows[..j + 1];
    forall k | j < k < n && k < |rows| ensures !p(rows[k]) {
      assert read[k] == rows[k];
    }
  }

  /** The last row of a filtered page, where the loop continues. */
  lemma KeptCursor(sort: seq<SortField>, rows: seq<Doc>, x: Inner, cursor: Key, p: Doc -> bool) returns (j: nat)
    requires ReadsPages(x) && InOrder(sort, rows) && |cursor| == |sort|
    requires Keep(ReadPage(sort, rows, x, cursor), p) != []
    ensures var page, after := Keep(ReadPage(sort, rows, x, cursor), p), After(sort, rows, cursor);
            && InOrder(sort, after) && LastPassing(after, p, PageRows(x), j)
            && page == Keep(after[..j + 1], p)
            && After(sort, rows, KeyOf(sort, page[|page| - 1])) == after[TieEnd(sort, after, j)..]
  {
    ReadPageIsFirst(sort, rows, x, cursor);
    j := LastOfPage(After(sort, rows, cursor), p, PageRows(x));
    AfterPosition(sort, rows, cursor, j);
  }

  /** Read pages and filter each again with what was left to DataFusion, until one has no row left; feed the
      last remaining row's sort values back in. */
  ghost function ReadKept(sort: seq<SortField>, rows: seq<Doc>, x: Inner, cursor: Key, p: Doc -> bool): seq<Doc>
    requires ReadsPages(x) && InOrder(sort, rows) && |cursor| == |sort|
    decreases |After(sort, rows, cursor)|
  {
    var page := Keep(ReadPage(sort, rows, x, cursor), p);
    if page == [] then []
    else
      assert |After(sort, rows, KeyOf(sort, page[|page| - 1]))| < |After(sort, rows, cursor)| by {
        var j := KeptCursor(sort, rows, x, cursor, p);
      }
      page + ReadKept(sort, rows, x, KeyOf(sort, page[|page| - 1]), p)
  }

  /** The loop with nothing left to filter. */
  ghost function ReadAll(sort: seq<SortField>, rows: seq<Doc>, x: Inner, cursor: Key): seq<Doc>
    requires ReadsPages(x) && InOrder(sort, rows) && |cursor| == |sort|
  {
    ReadKept(sort, rows, x, cursor, _ => true)
  }

  // ----- When the loop is complete

  predicate TiesFail(sort: seq<SortField>, rows: seq<Doc>, p: Doc -> bool, j: nat)
    requires j < |rows|
  {
    forall k :: j < k < TieEnd(sort, rows, j) ==> !p(rows[k])
  }

  /** Pages of `n` rows never lose the thread: if any row passes, one of the first `n` does, no passing row
      shares the sort values of the last of these and comes after it, and the same holds of the rows after
      its ties. */
  ghost predicate Unbroken(sort: seq<SortField>, rows: seq<Doc>, p: Doc -> bool, n: nat)
    decreases |rows|
  {
    || Keep(rows, p) == []
    || exists j: nat ::
         && LastPassing(rows, p, n, j) && TiesFail(sort, rows, p, j)
         && Unbroken(sort, rows[TieEnd(sort, rows, j)..], p, n)
  }

  lemma NothingPasses<T>(rows: seq<T>, p: T -> bool, n: nat)
    requires Keep(rows[..Min(n, |rows|)], p) == []
    ensures forall i :: 0 <= i < n && i < |rows| ==> !p(rows[i])
  {
    var read := rows[..Min(n, |rows|)];
    KeepCount(read, p);
    forall i | 0 <= i < n && i < |rows| ensures !p(rows[i]) {
      assert rows[i] in read;
    }
  }

  lemma KeepParts<T>(a: seq<T>, b: seq<T>, c: seq<T>, p: T -> bool)
    ensures Keep(a + (b + c), p) == Keep(a, p) + (Keep(b, p) + Keep(c, p))
  {
    KeepConcat(a, b + c, p);
    KeepConcat(b, c, p);
  }

  lemma TiesKept(sort: seq<SortField>, rows: seq<Doc>, p: Doc -> bool, j: nat)
    requires j < |rows|
    ensures Keep(rows[j + 1..TieEnd(sort, rows, j)], p) == [] <==> TiesFail(sort, rows, p, j)
  {
    var g := TieEnd(sort, rows, j);
    var ties := rows[j + 1..g];
    KeepCount(ties, p);
    assert forall k :: j < k < g ==> rows[k] == ties[k - j - 1] && rows[k] in ties;
  }

  /** A list that can only be too short is complete if and only if nothing was passed over. */
  lemma JoinDecides<T>(page: seq<T>, ties: seq<T>, rest: seq<T>, later: seq<T>)
    requires |later| <= |rest|
    ensures |page + later| <= |page + (ties + rest)|
    ensures page + later == page + (ties + rest) <==> ties == [] && later == rest
  {
    if page + later == page + (ties + rest) {
      assert later == (page + later)[|page|..] == (page + (ties + rest))[|page|..] == ties + rest;
    }
  }

  /** One page of the loop settles the rows up to the last that passes, and passes over its ties. */
  lemma KeptStep(sort: seq<SortField>, rows: seq<Doc>, p: Doc -> bool, n: nat, j: nat, later: seq<Doc>)
    requires LastPassing(rows, p, n, j)
    requires var rest := rows[TieEnd(sort, rows, j)..];
             |later| <= |Keep(rest, p)| && (later == Keep(rest, p) <==> Unbroken(sort, rest, p, n))
    ensures |Keep(rows[..j + 1], p) + later| <= |Keep(rows, p)|
    ensures Keep(rows[..j + 1], p) + later == Keep(rows, p) <==> Unbroken(sort, rows, p, n)
  {
    var g := TieEnd(sort, rows, j);
    assert rows == rows[..j + 1] + (rows[j + 1..g] + rows[g..]);
    KeepParts(rows[..j + 1], rows[j + 1..g], rows[g..], p);
    TiesKept(sort, rows, p, j);
    JoinDecides(Keep(rows[..j + 1], p), Keep(rows[j + 1..g], p), Keep(rows[g..], p), later);
    OnlyLastPassing(sort, rows, p, n, j);
  }

  lemma OnlyLastPassing(sort: seq<SortField>, rows: seq<Doc>, p: Doc -> bool, n: nat, j: nat)
    requires LastPassing(rows, p, n, j)
    ensures Unbroken(sort, rows, p, n) <==>
            TiesFail(sort, rows, p, j) && Unbroken(sort, rows[TieEnd(sort, rows, j)..], p, n)
  {
    KeepCount(rows, p);
    assert rows[j] in rows && Keep(rows, p) != [];
    forall i: nat | LastPassing(rows, p, n, i) ensures i == j {
    }
  }

  lemma EmptyPageBreaks(sort: seq<SortField>, rows: seq<Doc>, p: Doc -> bool, n: nat)
    requires Keep(rows[..Min(n, |rows|)], p) == []
    ensures Unbroken(sort, rows, p, n) <==> Keep(rows, p) == []
  {
    NothingPasses(rows, p, n);
  }

  /** The loop is its first page, up to the last row that passes, and the loop from there. */
  lemma FirstOfLoop(sort: seq<SortField>, rows: seq<Doc>, x: Inner, cursor: Key, p: Doc -> bool) returns (j: nat, next: Key)
    requires ReadsPages(x) && InOrder(sort, rows) && |cursor| == |sort|
    requires Keep(ReadPage(sort, rows, x, cursor), p) != []
    ensures |next| == |sort|
    ensures var after := After(sort, rows, cursor);
            && LastPassing(after, p, PageRows(x), j)
            && After(sort, rows, next) == after[TieEnd(sort, after, j)..]
            && ReadKept(sort, rows, x, cursor, p) == Keep(after[..j + 1], p) + ReadKept(sort, rows, x, next, p)
  {
    var page := Keep(ReadPage(sort, rows, x, cursor), p);
    j := KeptCursor(sort, rows, x, cursor, p);
    next := KeyOf(sort, page[|page| - 1]);
  }

  lemma EmptyLoop(sort: seq<SortField>, rows: seq<Doc>, x: Inner, cursor: Key, p: Doc -> bool)
    requires ReadsPages(x) && InOrder(sort, rows) && |cursor| == |sort|
    requires Keep(ReadPage(sort, rows, x, cursor), p) == []
    ensures ReadKept(sort, rows, x, cursor, p) == []
    ensures var after := After(sort, rows, cursor);
            Unbroken(sort, after, p, PageRows(x)) <==> Keep(after, p) == []
  {
    ReadPageIsFirst(sort, rows, x, cursor);
    EmptyPageBreaks(sort, After(sort, rows, cursor), p, PageRows(x));
  }

  /** The loop returns every row after the cursor that passes if and only if its pages never lose the thread: no
      page without a passing row comes before one, and no page ends inside a tie that goes on passing. */
  lemma {:induction false} ReadKeptCompleteIff(sort: seq<SortField>, rows: seq<Doc>, x: Inner, cursor: Key, p: Doc -> bool)
    requires ReadsPages(x) && InOrder(sort, rows) && |cursor| == |sort|
    ensures var after := After(sort, rows, cursor);
            && |ReadKept(sort, rows, x, cursor, p)| <= |Keep(after, p)|
            && (ReadKept(sort, rows, x, cursor, p) == Keep(after, p) <==> Unbroken(sort, after, p, PageRows(x)))
    decreases |After(sort, rows, cursor)|
  {
    if Keep(ReadPage(sort, rows, x, cursor), p) == [] {
      EmptyLoop(sort, rows, x, cursor, p);
    } else {
      var j, next := FirstOfLoop(sort, rows, x, cursor, p);
      ReadKeptCompleteIff(sort, rows, x, next, p);
      KeptStep(sort, After(sort, rows, cursor), p, PageRows(x), j, ReadKept(sort, rows, x, next, p));
    }
  }

  // ----- Without ties

  /** The `n` rows from `i` on fail and a later row passes. */
  predicate GapAt<T>(rows: seq<T>, p: T -> bool, n: nat, i: nat) {
    && i + n <= |rows|
    && (forall m :: i <= m < i + n ==> !p(rows[m]))
    && exists k :: i + n <= k < |rows| && p(rows[k])
  }

  ghost predicate ShortGaps<T>(rows: seq<T>, p: T -> bool, n: nat) {
    forall i: nat :: !GapAt(rows, p, n, i)
  }

  lemma GapsAfter<T>(rows: seq<T>, p: T -> bool, n: nat, j: nat)
    requires j < |rows| && j < n && p(rows[j])
    ensures ShortGaps(rows, p, n) <==> ShortGaps(rows[j + 1..], p, n)
  {
    var rest := rows[j + 1..];
    forall i: nat | GapAt(rest, p, n, i) ensures GapAt(rows, p, n, i + j + 1) {
      forall m | i + j + 1 <= m < i + j + 1 + n ensures !p(rows[m]) {
        assert rows[m] == rest[m - j - 1];
      }
      var k :| i + n <= k < |rest| && p(rest[k]);
      assert p(rows[k + j + 1]);
    }
    forall i: nat | GapAt(rows, p, n, i) ensures i > j && GapAt(rest, p, n, i - j - 1) {
      forall m | i - j - 1 <= m < i - j - 1 + n ensures i > j ==> !p(rest[m]) {
        assert i > j ==> rest[m] == rows[m + j + 1];
      }
      var k :| i + n <= k < |rows| && p(rows[k]);
      assert p(rest[k - j - 1]);
    }
  }

  lemma NothingKept<T>(rows: seq<T>, p: T -> bool, n: nat)
    requires Keep(rows[..Min(n, |rows|)], p) == []
    ensures ShortGaps(rows, p, n) <==> Keep(rows, p) == []
  {
    KeepCount(rows, p);
    NothingPasses(rows, p, n);
    if k :| 0 <= k < |rows| && p(rows[k]) {
      assert GapAt(rows, p, n, 0);
    }
  }

  /** When no two rows share their sort values the thread is kept if and only if no full page of failing rows
      comes before a passing one, wherever the pages fall. */
  lemma {:induction false} UnbrokenWithoutTiesIff(sort: seq<SortField>, rows: seq<Doc>, p: Doc -> bool, n: nat)
    requires Sorted(sort, rows)
    ensures Unbroken(sort, rows, p, n) <==> ShortGaps(rows, p, n)
    decreases |rows|
  {
    if Keep(rows[..Min(n, |rows|)], p) == [] {
      NothingKept(rows, p, n);
      NothingPasses(rows, p, n);
    } else {
      var j := LastOfPage(rows, p, n);
      SortedIsInOrder(sort, rows);
      assert TieEnd(sort, rows, j) == j + 1;
      OnlyLastPassing(sort, rows, p, n, j);
      GapsAfter(rows, p, n, j);
      UnbrokenWithoutTiesIff(sort, rows[j + 1..], p, n);
    }
  }

  // ----- Without a residual filter

  /** `n`, `2n`, and so on: where full pages end. */
  predicate Multiple(i: nat, n: nat) {
    n >= 1 && i >= n && (i == n || Multiple(i - n, n))
  }

  /** No page of `n` rows ends inside a tie. */
  predicate PageEndsApart(sort: seq<SortField>, rows: seq<Doc>, n: nat) {
    forall i: nat :: i < |rows| && Multiple(i, n) ==> KeyOf(sort, rows[i - 1]) != KeyOf(sort, rows[i])
  }

  lemma PageEndsAfter(sort: seq<SortField>, rows: seq<Doc>, n: nat)
    requires 1 <= n < |rows|
    ensures PageEndsApart(sort, rows, n) <==>
            KeyOf(sort, rows[n - 1]) != KeyOf(sort, rows[n]) && PageEndsApart(sort, rows[n..], n)
  {
    var rest := rows[n..];
    assert Multiple(n, n);
    forall i: nat | i < |rest| && Multiple(i, n)
      ensures Multiple(i + n, n) && rest[i - 1] == rows[i + n - 1] && rest[i] == rows[i + n]
    {
    }
    forall i: nat | i < |rows| && Multiple(i, n)
      ensures i == n || (Multiple(i - n, n) && rows[i - 1] == rest[i - n - 1] && rows[i] == rest[i - n])
    {
    }
  }

  lemma FirstPageUnfiltered(sort: seq<SortField>, rows: seq<Doc>, n: nat)
    requires InOrder(sort, rows) && n >= 1 && rows != []
    ensures var j := Min(n, |rows|) - 1;
            Unbroken(sort, rows, _ => true, n) <==>
            TieEnd(sort, rows, j) == j + 1 && Unbroken(sort, rows[j + 1..], _ => true, n)
  {
    var p, j := (_: Doc) => true, Min(n, |rows|) - 1;
    OnlyLastPassing(sort, rows, p, n, j);
    if TieEnd(sort, rows, j) > j + 1 {
      assert p(rows[j + 1]);
    }
  }

  lemma {:induction false} UnbrokenUnfilteredIff(sort: seq<SortField>, rows: seq<Doc>, n: nat)
    requires InOrder(sort, rows) && n >= 1
    ensures Unbroken(sort, rows, _ => true, n) <==> PageEndsApart(sort, rows, n)
    decreases |rows|
  {
    if rows != [] {
      FirstPageUnfiltered(sort, rows, n);
      if n < |rows| {
        PageEndsAfter(sort, rows, n);
        UnbrokenUnfilteredIff(sort, rows[n..], n);
      } else {
        assert rows[|rows|..] == [];
      }
    }
  }

  /** From any cursor the pages enumerate exactly the rows strictly after it, in the sort order, once each, if
      and only if no page ends inside a tie; always, when no two rows share their sort values. */
  lemma ReadAllEnumerates(sort: seq<SortField>, rows: seq<Doc>, x: Inner, cursor: Key)
    requires ReadsPages(x) && InOrder(sort, rows) && |cursor| == |sort|
    ensures PageRows(x) >= 1
    ensures ReadAll(sort, rows, x, cursor) == After(sort, rows, cursor) <==>
            PageEndsApart(sort, After(sort, rows, cursor), PageRows(x))
    ensures Sorted(sort, rows) ==> ReadAll(sort, rows, x, cursor) == After(sort, rows, cursor)
  {
    var k := AfterIsSuffix(sort, rows, cursor);
    var after := After(sort, rows, cursor);
    assert forall i :: 0 <= i < |after| ==> after[i] == rows[k + i];
    ReadPageIsFirst(sort, rows, x, cursor);
    ReadKeptCompleteIff(sort, rows, x, cursor, _ => true);
    KeepEverything(after, _ => true);
    UnbrokenUnfilteredIff(sort, after, PageRows(x));
    if Sorted(sort, rows) {
      SortedIsInOrder(sort, rows);
      assert PageEndsApart(sort, after, PageRows(x));
    }
  }
}
