/** What pushing a filter down does to the set of rows. The contract the connector states is that a
    translated filter selects the same rows as the SQL it came from (src/pushdown.rs:3-7). Here is
    exactly how far that holds. */
module Exactness {
  import opened Prelude
  import opened LikePatterns
  import opened Sql
  import opened QueryDsl
  import opened Pushdown

  // ----- Literals

  datatype Kind = TextKind | BoolKind | NumberKind | DateKind

  function KindOf(x: Scalar): Kind {
    match x case Str(_) => TextKind case Bool(_) => BoolKind case Num(_) => NumberKind case Date(_) => DateKind
  }

  /** The column type a literal can be compared with. */
  function LiteralKind(sv: ScalarValue): Kind {
    match sv
    case Utf8(_) => TextKind
    case BooleanValue(_) => BoolKind
    case Integer(_) => NumberKind
    case Float(_) => NumberKind
    case _ => DateKind
  }

  /** The literal is not an instant between two milliseconds. */
  predicate Whole(sv: ScalarValue) {
    match sv
    case TimestampMicrosecond(Some(t)) => t % 1_000 == 0
    case TimestampNanosecond(Some(t)) => t % 1_000_000 == 0
    case _ => true
  }

  function SqlOrder(d: Doc, f: string, sv: ScalarValue): Option<Order> {
    Compare(ReadColumn(d, f), Value(sv))
  }

  function StoredOrder(d: Doc, f: string, j: Json): Option<Order> {
    if f in d then CompareStored(d[f], j) else None
  }

  /** A date column of the right type is present or the column is absent. */
  predicate WellTyped(d: Doc, f: string, sv: ScalarValue) {
    f in d ==> KindOf(d[f]) == LiteralKind(sv)
  }

  lemma FloorOrder(m: int, t: int)
    ensures CompareInt(m * 1_000, t) ==
            if m == t / 1_000 && t % 1_000 != 0 then Less else CompareInt(m, t / 1_000)
    ensures CompareInt(m * 1_000_000, t) ==
            if m == t / 1_000_000 && t % 1_000_000 != 0 then Less else CompareInt(m, t / 1_000_000)
  {
  }

  /** How flooring a literal to the millisecond moves it: a stored date that equals the floored
      literal lies strictly before the real one, and no other comparison changes. */
  lemma FlooredLiteralOrder(d: Doc, f: string, sv: ScalarValue)
    requires ScalarToJson(sv).Some?
    ensures var sql := SqlOrder(d, f, sv);
            var stored := StoredOrder(d, f, ScalarToJson(sv).value);
            && (sql.Some? <==> f in d && KindOf(d[f]) == LiteralKind(sv))
            && (sql.Some? ==> stored.Some?)
            && (sql.Some? ==> sql.value == if stored.value == Equal && !Whole(sv) then Less else stored.value)
  {
    if f in d && d[f].Date? {
      match sv
      case TimestampMicrosecond(Some(t)) =>
        FloorOrder(d[f].millis, t);
      case TimestampNanosecond(Some(t)) =>
        FloorOrder(d[f].millis, t);
      case _ =>
    }
  }

  /** The instant the clause literal stands for, as SQL sees it. */
  function Floored(sv: ScalarValue): Datum {
    match sv
    case TimestampMicrosecond(Some(t)) => Instant(t / 1_000 * NANOS_PER_MILLI)
    case TimestampNanosecond(Some(t)) => Instant(t / 1_000_000 * NANOS_PER_MILLI)
    case _ => Value(sv)
  }

  lemma WholeIsUnmoved(sv: ScalarValue)
    ensures Whole(sv) <==> Floored(sv) == Value(sv)
  {
  }

  // ----- Conditions a caller can check

  /** A comparison with the column on the left: the column, the operator and the literal. */
  function ColumnComparison(left: Expr, op: Operator, right: Expr): Option<(string, Operator, ScalarValue)> {
    if left.Column? && LiteralJson(right).Some? then Some((left.name, op, right.value))
    else if right.Column? && LiteralJson(left).Some? then Some((right.name, Flip(op), left.value))
    else None
  }

  predicate Lists(list: seq<Expr>, v: Datum) {
    exists j :: 0 <= j < |list| && list[j].Literal? && Value(list[j].value) == v
  }

  /** Every instant an `IN` list is floored to is itself a member. */
  predicate FaithfulList(list: seq<Expr>) {
    forall i {:trigger list[i]} :: 0 <= i < |list| && list[i].Literal? ==> Lists(list, Floored(list[i].value))
  }

  /** No literal of the filter loses anything that matters when it is floored to the millisecond,
      and no pattern ends in a dangling escape. */
  predicate Faithful(e: Expr) {
    match e
    case BinaryExpr(l, op, r) =>
      if op.And? || op.Or? then Faithful(l) && Faithful(r)
      else (match ColumnComparison(l, op, r)
            case None => true
            case Some((c, o, sv)) => Whole(sv) || o.Gt? || o.LtEq?)
    case InList(_, list, _) => FaithfulList(list)
    case Between(_, lo, hi, _) =>
      lo.Literal? && hi.Literal? ==>
        Whole(lo.value) || Compare(Floored(lo.value), Value(hi.value)) == Some(Greater)
    case Like(_, p, _, _, _) =>
      p.Literal? && p.value.Utf8? && p.value.text.Some? ==> !Dangling(p.value.text.value, '\\')
    case Not(x) => Faithful(x)
    case _ => true
  }

  /** Every column compared with a literal has the literal's type where it is present. */
  predicate Typed(e: Expr, d: Doc) {
    match e
    case BinaryExpr(l, op, r) =>
      if op.And? || op.Or? then Typed(l, d) && Typed(r, d)
      else (match ColumnComparison(l, op, r)
            case None => true
            case Some((c, o, sv)) => WellTyped(d, c, sv))
    case InList(x, list, _) =>
      x.Column? ==> forall i :: 0 <= i < |list| && list[i].Literal? ==> WellTyped(d, x.name, list[i].value)
    case Between(x, lo, hi, _) =>
      x.Column? && lo.Literal? && hi.Literal? ==> WellTyped(d, x.name, lo.value) && WellTyped(d, x.name, hi.value)
    case Like(x, p, _, _, _) =>
      x.Column? && p.Literal? ==> WellTyped(d, x.name, p.value)
    case Not(x) => Typed(x, d)
    case _ => true
  }

  /** Every column compared under an odd number of negations is present. `NOT`, `!=` and the
      negated forms each add one negation; `odd` says whether the context already has an odd number. */
  predicate OddColumnsPresent(e: Expr, d: Doc, odd: bool) {
    match e
    case BinaryExpr(l, op, r) =>
      if op.And? || op.Or? then OddColumnsPresent(l, d, odd) && OddColumnsPresent(r, d, odd)
      else (match ColumnComparison(l, op, r)
            case None => true
            case Some((c, o, sv)) => odd != op.NotEq? ==> c in d)
    case InList(x, _, negated) => x.Column? && odd != negated ==> x.name in d
    case Between(x, _, _, negated) => x.Column? && odd != negated ==> x.name in d
    case Like(x, _, _, _, negated) => x.Column? && odd != negated ==> x.name in d
    case Not(x) => OddColumnsPresent(x, d, !odd)
    case _ => true
  }

  /** No negation anywhere. `IS NULL` is not one. */
  predicate NegationFree(e: Expr) {
    match e
    case BinaryExpr(l, op, r) => !op.NotEq? && (op.And? || op.Or? ==> NegationFree(l) && NegationFree(r))
    case InList(_, _, negated) => !negated
    case Between(_, _, _, negated) => !negated
    case Like(_, _, _, _, negated) => !negated
    case Not(_) => false
    case _ => true
  }

  // ----- How a two-valued clause follows a three-valued filter

  /** `m` follows `t`: they agree when `t` is decided; `even` forbids a match that SQL does not call
      true; `odd` forbids a miss that SQL does not call false. */
  predicate Follows(m: bool, t: Truth, even: bool, odd: bool) {
    && (t == True ==> m)
    && (t == False ==> !m)
    && (even && m ==> t == True)
    && (odd && !m ==> t == False)
  }

  lemma FollowsNegateIf(negated: bool, m: bool, t: Truth, even: bool, odd: bool)
    requires Follows(m, t, even, odd)
    ensures negated ==> Follows(!m, NegateIf(negated, t), odd, even)
    ensures !negated ==> Follows(m, NegateIf(negated, t), even, odd)
  {
  }

  lemma ComparisonFollows(d: Doc, c: string, op: Operator, sv: ScalarValue, dialect: Dialect)
    requires ScalarToJson(sv).Some? && IsComparison(op) && !op.NotEq?
    requires Whole(sv) || op.Gt? || op.LtEq?
    ensures var q := if op.Eq? then Term(c, ScalarToJson(sv).value) else RangeClause(c, op, ScalarToJson(sv).value);
            Follows(Matches(q, d, dialect), CompareTruth(op, ReadColumn(d, c), Value(sv)),
                    WellTyped(d, c, sv), WellTyped(d, c, sv) && c in d)
  {
    FlooredLiteralOrder(d, c, sv);
  }

  lemma BetweenFollows(d: Doc, c: string, lo: ScalarValue, hi: ScalarValue, dialect: Dialect)
    requires ScalarToJson(lo).Some? && ScalarToJson(hi).Some?
    requires Whole(lo) || Compare(Floored(lo), Value(hi)) == Some(Greater)
    ensures var q := Range(c, None, Some(ScalarToJson(lo).value), None, Some(ScalarToJson(hi).value));
            var x := ReadColumn(d, c);
            var typed := WellTyped(d, c, lo) && WellTyped(d, c, hi);
            Follows(Matches(q, d, dialect), Both(CompareTruth(GtEq, x, Value(lo)), CompareTruth(LtEq, x, Value(hi))),
                    typed, typed && c in d)
  {
    FlooredLiteralOrder(d, c, lo);
    FlooredLiteralOrder(d, c, hi);
  }

  lemma {:induction false} LiteralListAt(list: seq<Expr>)
    requires LiteralList(list).Some?
    ensures var vs := LiteralList(list).value;
            |vs| == |list| && forall i :: 0 <= i < |vs| ==> LiteralJson(list[i]) == Some(vs[i])
  {
    if list != [] {
      LiteralListAt(list[1..]);
    }
  }

  lemma {:induction false} MemberDecided(x: Datum, vs: seq<Datum>)
    ensures Member(x, vs) == True <==> exists i :: 0 <= i < |vs| && Compare(x, vs[i]) == Some(Equal)
    ensures Member(x, vs) == False <==>
            forall i :: 0 <= i < |vs| ==> Compare(x, vs[i]).Some? && Compare(x, vs[i]) != Some(Equal)
  {
    if vs != [] {
      MemberDecided(x, vs[1..]);
      assert forall i :: 0 < i < |vs| ==> vs[i] == vs[1..][i - 1];
    }
  }

  lemma {:induction false} EvalAllLiterals(list: seq<Expr>, d: Doc, dialect: Dialect)
    requires LiteralList(list).Some?
    ensures |EvalAll(list, d, dialect)| == |list|
    ensures forall i :: 0 <= i < |list| ==> list[i].Literal? && EvalAll(list, d, dialect)[i] == Value(list[i].value)
  {
    if list != [] {
      EvalAllLiterals(list[1..], d, dialect);
      assert forall i :: 0 < i < |list| ==> list[i] == list[1..][i - 1];
    }
  }

  lemma FindListed(list: seq<Expr>, v: Datum) returns (j: nat)
    requires Lists(list, v)
    ensures j < |list| && list[j].Literal? && Value(list[j].value) == v
  {
    j :| 0 <= j < |list| && list[j].Literal? && Value(list[j].value) == v;
  }

  /** Where a clause literal of an `IN` list equals the stored value, some SQL literal does too. */
  lemma ListedLiteral(list: seq<Expr>, d: Doc, c: string, sv: ScalarValue) returns (j: nat)
    requires Lists(list, Floored(sv)) && ScalarToJson(sv).Some?
    requires SqlOrder(d, c, sv).Some? && StoredOrder(d, c, ScalarToJson(sv).value) == Some(Equal)
    ensures j < |list| && list[j].Literal? && SqlOrder(d, c, list[j].value) == Some(Equal)
  {
    EqualToFloored(d, c, sv);
    j := FindListed(list, Floored(sv));
  }

  /** `sql` and `stored` are the orders of one value against each member of a list. */
  lemma MembershipFollows(sql: seq<Option<Order>>, stored: seq<Option<Order>>, t: Truth, present: bool)
    requires |sql| == |stored|
    requires t == True <==> Some(Equal) in sql
    requires t == False <==> (None !in sql && Some(Equal) !in sql)
    requires forall i :: 0 <= i < |sql| && sql[i] == Some(Equal) ==> stored[i] == Some(Equal)
    requires forall i :: 0 <= i < |sql| && sql[i].Some? && stored[i] == Some(Equal) ==> Some(Equal) in sql
    requires !present ==> Some(Equal) !in stored
    ensures var typed := present ==> None !in sql;
            Follows(Some(Equal) in stored, t, typed, typed && present)
  {
    if Some(Equal) in stored {
      var i :| 0 <= i < |stored| && stored[i] == Some(Equal);
      assert sql[i] in sql;
    }
    if Some(Equal) in sql {
      var i :| 0 <= i < |sql| && sql[i] == Some(Equal);
      assert stored[i] in stored;
    }
  }

  function SqlOrders(d: Doc, c: string, list: seq<Expr>): (orders: seq<Option<Order>>)
    ensures |orders| == |list|
  {
    seq(|list|, i requires 0 <= i < |list| => if list[i].Literal? then SqlOrder(d, c, list[i].value) else None)
  }

  function StoredOrders(d: Doc, c: string, js: seq<Json>): (orders: seq<Option<Order>>)
    ensures |orders| == |js|
  {
    seq(|js|, i requires 0 <= i < |js| => StoredOrder(d, c, js[i]))
  }

  lemma InListFollows(list: seq<Expr>, d: Doc, c: string, t: Truth)
    requires LiteralList(list).Some? && FaithfulList(list)
    requires var sql := SqlOrders(d, c, list);
             && (t == True <==> Some(Equal) in sql)
             && (t == False <==> (None !in sql && Some(Equal) !in sql))
    ensures var sql := SqlOrders(d, c, list);
            var typed := c in d ==> None !in sql;
            Follows(Some(Equal) in StoredOrders(d, c, LiteralList(list).value), t, typed, typed && c in d)
  {
    var js := LiteralList(list).value;
    var sql, stored := SqlOrders(d, c, list), StoredOrders(d, c, js);
    LiteralListAt(list);
    forall i | 0 <= i < |list|
      ensures sql[i] == Some(Equal) ==> stored[i] == Some(Equal)
      ensures sql[i].Some? && stored[i] == Some(Equal) ==> Some(Equal) in sql
    {
      FlooredLiteralOrder(d, c, list[i].value);
      if sql[i].Some? && stored[i] == Some(Equal) {
        var j := ListedLiteral(list, d, c, list[i].value);
        assert sql[j] in sql;
      }
    }
    MembershipFollows(sql, stored, t, c in d);
  }

  lemma EqualToFloored(d: Doc, c: string, sv: ScalarValue)
    requires ScalarToJson(sv).Some? && SqlOrder(d, c, sv).Some?
    requires StoredOrder(d, c, ScalarToJson(sv).value) == Some(Equal)
    ensures Compare(ReadColumn(d, c), Floored(sv)) == Some(Equal)
  {
    FlooredLiteralOrder(d, c, sv);
    WholeIsUnmoved(sv);
  }

  lemma LikeFollows(d: Doc, c: string, p: string, ci: bool, dialect: Dialect)
    requires !Dangling(p, '\\')
    ensures var x := ReadColumn(d, c);
            Follows(Matches(LikeToQuery(c, p, ci), d, dialect),
                    LikeTruth(x, Text(p), '\\', Folding(dialect, ci), dialect.dangling), true, x.Text?)
  {
    if c in d && d[c].Str? {
      ClauseIsExact(p, d[c].s, Folding(dialect, ci), dialect.dangling);
    }
  }

  // ----- The main theorem

  /** The clause of `e` follows its truth value, at even and at odd negation depth. */
  ghost predicate Tracks(e: Expr, d: Doc, dialect: Dialect)
    requires ExprToQuery(e).Some?
  {
    Follows(Matches(ExprToQuery(e).value, d, dialect), TruthOf(e, d, dialect),
            Typed(e, d) && OddColumnsPresent(e, d, false), Typed(e, d) && OddColumnsPresent(e, d, true))
  }

  /** Either operand order means the same comparison of the column with the literal. */
  lemma ComparisonParts(l: Expr, op: Operator, r: Expr, d: Doc, dialect: Dialect)
    requires IsComparison(op) && ExprToQuery(BinaryExpr(l, op, r)).Some?
    ensures var (c, o, sv) := ColumnComparison(l, op, r).value;
            && TruthOf(BinaryExpr(l, op, r), d, dialect) == CompareTruth(o, ReadColumn(d, c), Value(sv))
            && ScalarToJson(sv).Some?
            && IsComparison(o) && (o.NotEq? <==> op.NotEq?)
  {
    CompareSwaps(Eval(l, d, dialect), Eval(r, d, dialect));
  }

  lemma ComparisonClause(l: Expr, op: Operator, r: Expr, d: Doc, dialect: Dialect)
    requires IsComparison(op) && ExprToQuery(BinaryExpr(l, op, r)).Some?
    ensures var (c, o, sv) := ColumnComparison(l, op, r).value;
            var j := ScalarToJson(sv).value;
            && IsComparison(o)
            && Matches(ExprToQuery(BinaryExpr(l, op, r)).value, d, dialect) ==
               (if o.NotEq? then !Matches(Term(c, j), d, dialect)
                else if o.Eq? then Matches(Term(c, j), d, dialect) else Matches(RangeClause(c, o, j), d, dialect))
  {
    var (c, o, sv) := ColumnComparison(l, op, r).value;
    var j := ScalarToJson(sv).value;
    assert Matches(MustNot(Term(c, j)), d, dialect) == !Matches(Term(c, j), d, dialect);
  }

  lemma ColumnComparisonTracks(l: Expr, op: Operator, r: Expr, d: Doc, dialect: Dialect)
    requires IsComparison(op) && ExprToQuery(BinaryExpr(l, op, r)).Some? && Faithful(BinaryExpr(l, op, r))
    ensures Tracks(BinaryExpr(l, op, r), d, dialect)
  {
    var (c, o, sv) := ColumnComparison(l, op, r).value;
    ComparisonParts(l, op, r, d, dialect);
    ComparisonClause(l, op, r, d, dialect);
    ComparisonFollows(d, c, if o.NotEq? then Eq else o, sv, dialect);
  }

  lemma MemberOfLiterals(list: seq<Expr>, d: Doc, c: string, dialect: Dialect)
    requires LiteralList(list).Some?
    ensures var sql, t := SqlOrders(d, c, list), Member(ReadColumn(d, c), EvalAll(list, d, dialect));
            && (t == True <==> Some(Equal) in sql)
            && (t == False <==> (None !in sql && Some(Equal) !in sql))
  {
    var x, vs, sql := ReadColumn(d, c), EvalAll(list, d, dialect), SqlOrders(d, c, list);
    EvalAllLiterals(list, d, dialect);
    MemberDecided(x, vs);
    assert forall i :: 0 <= i < |sql| ==> sql[i] == Compare(x, vs[i]);
  }

  lemma TypedList(list: seq<Expr>, d: Doc, c: string)
    requires LiteralList(list).Some?
    ensures (c in d ==> None !in SqlOrders(d, c, list)) <==> Typed(InList(Column(c), list, false), d)
  {
    var sql := SqlOrders(d, c, list);
    LiteralListAt(list);
    forall i | 0 <= i < |list|
      ensures list[i].Literal?
      ensures c in d ==> (sql[i].Some? <==> WellTyped(d, c, list[i].value))
    {
      FlooredLiteralOrder(d, c, list[i].value);
    }
    if c in d && None !in sql {
      forall i | 0 <= i < |list| ensures WellTyped(d, c, list[i].value) {
        assert sql[i] in sql;
      }
    }
  }

  lemma TermsMatches(c: string, js: seq<Json>, d: Doc, dialect: Dialect)
    ensures Matches(Terms(c, js), d, dialect) <==> Some(Equal) in StoredOrders(d, c, js)
  {
    var stored := StoredOrders(d, c, js);
    assert forall i :: 0 <= i < |js| ==> stored[i] == StoredOrder(d, c, js[i]);
  }

  lemma InListTruth(c: string, list: seq<Expr>, negated: bool, d: Doc, dialect: Dialect)
    ensures TruthOf(InList(Column(c), list, negated), d, dialect) ==
            NegateIf(negated, Member(ReadColumn(d, c), EvalAll(list, d, dialect)))
  {
    assert Eval(Column(c), d, dialect) == ReadColumn(d, c);
  }

  lemma InListParts(c: string, list: seq<Expr>, negated: bool, d: Doc, dialect: Dialect)
    requires LiteralList(list).Some?
    ensures var e, q := InList(Column(c), list, negated), Terms(c, LiteralList(list).value);
            && ExprToQuery(e) == Some(MustNotIf(negated, q))
            && Matches(MustNotIf(negated, q), d, dialect) == (negated != Matches(q, d, dialect))
            && Typed(e, d) == Typed(InList(Column(c), list, false), d)
            && OddColumnsPresent(e, d, false) == (negated ==> c in d)
            && OddColumnsPresent(e, d, true) == (!negated ==> c in d)
  {
  }

  lemma InListTracks(c: string, list: seq<Expr>, negated: bool, d: Doc, dialect: Dialect)
    requires LiteralList(list).Some? && FaithfulList(list)
    ensures Tracks(InList(Column(c), list, negated), d, dialect)
  {
    var t := Member(ReadColumn(d, c), EvalAll(list, d, dialect));
    var q := Terms(c, LiteralList(list).value);
    InListTruth(c, list, negated, d, dialect);
    InListParts(c, list, negated, d, dialect);
    MemberOfLiterals(list, d, c, dialect);
    InListFollows(list, d, c, t);
    TypedList(list, d, c);
    TermsMatches(c, LiteralList(list).value, d, dialect);
    var typed := Typed(InList(Column(c), list, false), d);
    FollowsNegateIf(negated, Matches(q, d, dialect), t, typed, typed && c in d);
  }

  lemma BetweenTracks(c: string, lo: ScalarValue, hi: ScalarValue, negated: bool, d: Doc, dialect: Dialect)
    requires ScalarToJson(lo).Some? && ScalarToJson(hi).Some?
    requires Whole(lo) || Compare(Floored(lo), Value(hi)) == Some(Greater)
    ensures Tracks(Between(Column(c), Literal(lo), Literal(hi), negated), d, dialect)
  {
    assert Eval(Column(c), d, dialect) == ReadColumn(d, c);
    assert Eval(Literal(lo), d, dialect) == Value(lo) && Eval(Literal(hi), d, dialect) == Value(hi);
    var q := Range(c, None, Some(ScalarToJson(lo).value), None, Some(ScalarToJson(hi).value));
    assert Matches(MustNotIf(negated, q), d, dialect) == (negated != Matches(q, d, dialect));
    BetweenFollows(d, c, lo, hi, dialect);
  }

  lemma LikeTracks(e: Expr, d: Doc, dialect: Dialect)
    requires e.Like? && ExprToQuery(e).Some? && Faithful(e)
    ensures Tracks(e, d, dialect)
  {
    var c, p := e.expr.name, e.pattern.value.text.value;
    assert Eval(e.expr, d, dialect) == ReadColumn(d, c) && Eval(e.pattern, d, dialect) == Text(p);
    var q := LikeToQuery(c, p, e.caseInsensitive);
    assert Matches(MustNotIf(e.negated, q), d, dialect) == (e.negated != Matches(q, d, dialect));
    LikeFollows(d, c, p, e.caseInsensitive, dialect);
  }

  lemma JunctionMatches(l: Query, r: Query, d: Doc, dialect: Dialect)
    ensures Matches(Filter([l, r]), d, dialect) == (Matches(l, d, dialect) && Matches(r, d, dialect))
    ensures Matches(Should([l, r]), d, dialect) == (Matches(l, d, dialect) || Matches(r, d, dialect))
  {
    assert [l, r][0] == l && [l, r][1] == r;
  }

  lemma JunctionFollows(ml: bool, tl: Truth, mr: bool, tr: Truth, evenl: bool, oddl: bool, evenr: bool, oddr: bool)
    requires Follows(ml, tl, evenl, oddl) && Follows(mr, tr, evenr, oddr)
    ensures Follows(ml && mr, Both(tl, tr), evenl && evenr, oddl && oddr)
    ensures Follows(ml || mr, Either(tl, tr), evenl && evenr, oddl && oddr)
  {
  }

  lemma JunctionParts(l: Expr, op: Operator, r: Expr, d: Doc, dialect: Dialect)
    requires op.And? || op.Or?
    ensures var e := BinaryExpr(l, op, r);
            && TruthOf(e, d, dialect) == (if op.And? then Both(TruthOf(l, d, dialect), TruthOf(r, d, dialect))
                                          else Either(TruthOf(l, d, dialect), TruthOf(r, d, dialect)))
            && Typed(e, d) == (Typed(l, d) && Typed(r, d))
            && OddColumnsPresent(e, d, false) == (OddColumnsPresent(l, d, false) && OddColumnsPresent(r, d, false))
            && OddColumnsPresent(e, d, true) == (OddColumnsPresent(l, d, true) && OddColumnsPresent(r, d, true))
  {
  }

  lemma JunctionClause(l: Expr, op: Operator, r: Expr, d: Doc, dialect: Dialect)
    requires op.And? || op.Or?
    requires ExprToQuery(l).Some? && ExprToQuery(r).Some?
    ensures var e := BinaryExpr(l, op, r);
            var ml, mr := Matches(ExprToQuery(l).value, d, dialect), Matches(ExprToQuery(r).value, d, dialect);
            && ExprToQuery(e).Some?
            && Matches(ExprToQuery(e).value, d, dialect) == if op.And? then ml && mr else ml || mr
  {
    JunctionMatches(ExprToQuery(l).value, ExprToQuery(r).value, d, dialect);
  }

  lemma JunctionTracks(l: Expr, op: Operator, r: Expr, d: Doc, dialect: Dialect)
    requires op.And? || op.Or?
    requires ExprToQuery(l).Some? && ExprToQuery(r).Some? && Tracks(l, d, dialect) && Tracks(r, d, dialect)
    ensures Tracks(BinaryExpr(l, op, r), d, dialect)
  {
    var ql, qr := ExprToQuery(l).value, ExprToQuery(r).value;
    JunctionClause(l, op, r, d, dialect);
    JunctionParts(l, op, r, d, dialect);
    JunctionFollows(Matches(ql, d, dialect), TruthOf(l, d, dialect), Matches(qr, d, dialect), TruthOf(r, d, dialect),
                    Typed(l, d) && OddColumnsPresent(l, d, false), Typed(l, d) && OddColumnsPresent(l, d, true),
                    Typed(r, d) && OddColumnsPresent(r, d, false), Typed(r, d) && OddColumnsPresent(r, d, true));
  }

  lemma NullTestTracks(c: string, d: Doc, dialect: Dialect)
    ensures Tracks(IsNotNull(Column(c)), d, dialect) && Tracks(IsNull(Column(c)), d, dialect)
  {
    assert Eval(Column(c), d, dialect) == ReadColumn(d, c);
    assert Matches(MustNot(Exists(c)), d, dialect) == (c !in d);
  }

  lemma {:induction false} TranslationTracks(e: Expr, d: Doc, dialect: Dialect)
    requires ExprToQuery(e).Some? && Faithful(e)
    ensures Tracks(e, d, dialect)
  {
    match e
    case BinaryExpr(l, op, r) =>
      if op.And? || op.Or? {
        TranslationTracks(l, d, dialect);
        TranslationTracks(r, d, dialect);
        JunctionTracks(l, op, r, d, dialect);
      } else {
        ColumnComparisonTracks(l, op, r, d, dialect);
      }
    case InList(x, list, negated) =>
      InListTracks(x.name, list, negated, d, dialect);
    case Between(x, lo, hi, negated) =>
      BetweenTracks(x.name, lo.value, hi.value, negated, d, dialect);
    case Like(_, _, _, _, _) =>
      LikeTracks(e, d, dialect);
    case Not(x) =>
      TranslationTracks(x, d, dialect);
    case IsNotNull(x) =>
      NullTestTracks(x.name, d, dialect);
    case IsNull(x) =>
      NullTestTracks(x.name, d, dialect);
  }

  /** The stated contract: where every column compared at odd negation depth is present, the clause
      selects exactly the rows SQL selects. */
  lemma PushdownIsExact(e: Expr, d: Doc, dialect: Dialect)
    requires ExprToQuery(e).Some? && Faithful(e)
    requires Typed(e, d) && OddColumnsPresent(e, d, false)
    ensures Matches(ExprToQuery(e).value, d, dialect) <==> TruthOf(e, d, dialect) == True
  {
    TranslationTracks(e, d, dialect);
  }

  lemma {:induction false} NegationFreeIsReady(e: Expr, d: Doc)
    requires NegationFree(e)
    ensures OddColumnsPresent(e, d, false)
  {
    if e.BinaryExpr? && (e.op.And? || e.op.Or?) {
      NegationFreeIsReady(e.left, d);
      NegationFreeIsReady(e.right, d);
    }
  }

  /** A filter without negation is exact on every document, absent columns included. */
  lemma NegationFreeIsExact(e: Expr, d: Doc, dialect: Dialect)
    requires ExprToQuery(e).Some? && Faithful(e) && NegationFree(e) && Typed(e, d)
    ensures Matches(ExprToQuery(e).value, d, dialect) <==> TruthOf(e, d, dialect) == True
  {
    NegationFreeIsReady(e, d);
    PushdownIsExact(e, d, dialect);
  }
}
