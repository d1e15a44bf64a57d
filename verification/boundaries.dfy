/** Where the exactness of `Exactness` ends: for every single comparison, list, range and pattern,
    the exact condition under which its clause selects the rows SQL selects. */
module Boundaries {
  import opened Prelude
  import opened LikePatterns
  import opened Sql
  import opened QueryDsl
  import opened Pushdown
  import opened Exactness

  // ----- Temporal literals

  /** A temporal literal becomes the millisecond its instant falls in, counting negative instants
      downwards, and stays a 64-bit number. It stays with DataFusion only when that number would not
      fit, which happens to seconds alone. */
  lemma TemporalLiteralIsItsMillisecond(sv: ScalarValue)
    requires Value(sv).Instant? && !sv.Unmodelled?
    ensures var ns := Value(sv).ns;
            var m := ns / NANOS_PER_MILLI;
            ScalarToJson(sv) ==
            if -TWO_TO_THE_63 <= m < TWO_TO_THE_63 then Some(JNum(m as real)) else None
    ensures ScalarToJson(sv).None? ==> sv.TimestampSecond?
  {
  }

  // ----- Which filters translate

  /** A literal that has a value of a type documents carry, and, if it is an instant, one whose
      millisecond fits 64 bits. */
  predicate PushableLiteral(e: Expr) {
    && e.Literal? && !e.value.Unmodelled?
    && match Value(e.value)
       case Null => false
       case Instant(ns) => -TWO_TO_THE_63 <= ns / NANOS_PER_MILLI < TWO_TO_THE_63
       case _ => true
  }

  /** Comparisons of a plain column with literals, null tests of a plain column, and what `AND`, `OR` and
      `NOT` make of those. */
  predicate Pushable(e: Expr) {
    match e
    case BinaryExpr(l, op, r) =>
      if op.And? || op.Or? then Pushable(l) && Pushable(r)
      else IsComparison(op) && ((l.Column? && PushableLiteral(r)) || (r.Column? && PushableLiteral(l)))
    case InList(x, list, _) => x.Column? && forall i :: 0 <= i < |list| ==> PushableLiteral(list[i])
    case Between(x, lo, hi, _) => x.Column? && PushableLiteral(lo) && PushableLiteral(hi)
    case Like(x, p, esc, _, _) =>
      x.Column? && (esc.None? || esc.value == '\\') && PushableLiteral(p) && Value(p.value).Text?
    case Not(x) => Pushable(x)
    case IsNotNull(x) => x.Column?
    case IsNull(x) => x.Column?
    case _ => false
  }

  lemma PushableLiteralIff(e: Expr)
    ensures LiteralJson(e).Some? <==> PushableLiteral(e)
    ensures LiteralJson(e).Some? && LiteralJson(e).value.JStr? <==> PushableLiteral(e) && Value(e.value).Text?
  {
    if e.Literal? && Value(e.value).Instant? && !e.value.Unmodelled? {
      TemporalLiteralIsItsMillisecond(e.value);
    }
  }

  lemma {:induction false} PushableListIff(list: seq<Expr>)
    ensures LiteralList(list).Some? <==> forall i :: 0 <= i < |list| ==> PushableLiteral(list[i])
  {
    if list != [] {
      PushableLiteralIff(list[0]);
      PushableListIff(list[1..]);
      assert forall i :: 0 < i < |list| ==> list[i] == list[1..][i - 1];
    }
  }

  /** A filter is translated if and only if every part of it can be: all or nothing, in every branch. */
  lemma {:induction false} TranslatesIff(e: Expr)
    ensures ExprToQuery(e).Some? <==> Pushable(e)
  {
    match e
    case BinaryExpr(l, op, r) =>
      if op.And? || op.Or? {
        TranslatesIff(l);
        TranslatesIff(r);
      } else {
        PushableLiteralIff(l);
        PushableLiteralIff(r);
      }
    case InList(_, list, _) => PushableListIff(list);
    case Between(_, lo, hi, _) =>
      PushableLiteralIff(lo);
      PushableLiteralIff(hi);
    case Like(_, p, _, _, _) => PushableLiteralIff(p);
    case Not(x) => TranslatesIff(x);
    case _ =>
  }

  function FloorMillis(sv: ScalarValue): int
    requires !Whole(sv)
  {
    match sv
    case TimestampMicrosecond(Some(t)) => t / 1_000
    case TimestampNanosecond(Some(t)) => t / 1_000_000
  }

  /** A document dated exactly at the floored literal: the clause sees equality, SQL sees a date
      before the literal. */
  function AtFloor(c: string, sv: ScalarValue): Doc
    requires !Whole(sv)
  {
    map[c := Date(FloorMillis(sv))]
  }

  lemma AtFloorOrders(c: string, sv: ScalarValue)
    requires !Whole(sv)
    ensures var d := AtFloor(c, sv);
            && WellTyped(d, c, sv)
            && ReadColumn(d, c) == Floored(sv)
            && ScalarToJson(sv).Some?
            && StoredOrder(d, c, ScalarToJson(sv).value) == Some(Equal)
            && SqlOrder(d, c, sv) == Some(Less)
  {
    FlooredLiteralOrder(AtFloor(c, sv), c, sv);
  }

  // ----- One atom at a time

  /** The clause of `e` is exact wherever `PushdownIsExact` promises it. */
  ghost predicate Exact(e: Expr, dialect: Dialect)
    requires ExprToQuery(e).Some?
  {
    forall d: Doc :: Typed(e, d) && OddColumnsPresent(e, d, false) ==> ExactAt(e, d, dialect)
  }

  ghost predicate ExactAt(e: Expr, d: Doc, dialect: Dialect)
    requires ExprToQuery(e).Some?
  {
    Matches(ExprToQuery(e).value, d, dialect) <==> TruthOf(e, d, dialect) == True
  }

  lemma FaithfulIsExact(e: Expr, dialect: Dialect)
    requires ExprToQuery(e).Some? && Faithful(e)
    ensures Exact(e, dialect)
  {
    forall d: Doc | Typed(e, d) && OddColumnsPresent(e, d, false)
      ensures ExactAt(e, d, dialect)
    {
      PushdownIsExact(e, d, dialect);
    }
  }

  /** A comparison is exact if and only if its literal is a whole millisecond or the operator, read
      with the column on the left, is `>` or `<=`. */
  lemma ComparisonExactIff(l: Expr, op: Operator, r: Expr, dialect: Dialect)
    requires IsComparison(op) && ExprToQuery(BinaryExpr(l, op, r)).Some?
    ensures var (c, o, sv) := ColumnComparison(l, op, r).value;
            Exact(BinaryExpr(l, op, r), dialect) <==> Whole(sv) || o.Gt? || o.LtEq?
  {
    var e := BinaryExpr(l, op, r);
    var (c, o, sv) := ColumnComparison(l, op, r).value;
    if Faithful(e) {
      FaithfulIsExact(e, dialect);
    } else {
      var d := AtFloor(c, sv);
      AtFloorOrders(c, sv);
      ComparisonParts(l, op, r, d, dialect);
      ComparisonClause(l, op, r, d, dialect);
      assert !ExactAt(e, d, dialect);
    }
  }

  /** A range is exact if and only if its lower bound is a whole millisecond or its floored lower
      bound already exceeds the upper one. */
  lemma BetweenExactIff(c: string, lo: ScalarValue, hi: ScalarValue, negated: bool, dialect: Dialect)
    requires ScalarToJson(lo).Some? && ScalarToJson(hi).Some? && LiteralKind(lo) == LiteralKind(hi)
    ensures Exact(Between(Column(c), Literal(lo), Literal(hi), negated), dialect) <==>
            Whole(lo) || Compare(Floored(lo), Value(hi)) == Some(Greater)
  {
    var e := Between(Column(c), Literal(lo), Literal(hi), negated);
    if Faithful(e) {
      FaithfulIsExact(e, dialect);
    } else {
      var d := AtFloor(c, lo);
      AtFloorOrders(c, lo);
      FlooredLiteralOrder(d, c, hi);
      assert Eval(Column(c), d, dialect) == ReadColumn(d, c);
      assert Eval(Literal(lo), d, dialect) == Value(lo) && Eval(Literal(hi), d, dialect) == Value(hi);
      assert CompareTruth(GtEq, ReadColumn(d, c), Value(lo)) == False;
      var q := Range(c, None, Some(ScalarToJson(lo).value), None, Some(ScalarToJson(hi).value));
      assert Matches(q, d, dialect);
      assert Matches(MustNotIf(negated, q), d, dialect) == (negated != Matches(q, d, dialect));
      assert !ExactAt(e, d, dialect);
    }
  }

  /** An `IN` list is exact if and only if every instant a member is floored to is itself listed. */
  lemma InListExactIff(c: string, list: seq<Expr>, negated: bool, kind: Kind, dialect: Dialect)
    requires LiteralList(list).Some?
    requires forall i :: 0 <= i < |list| ==> list[i].Literal? && LiteralKind(list[i].value) == kind
    ensures Exact(InList(Column(c), list, negated), dialect) <==> FaithfulList(list)
  {
    var e := InList(Column(c), list, negated);
    if Faithful(e) {
      FaithfulIsExact(e, dialect);
    } else {
      var i :| 0 <= i < |list| && list[i].Literal? && !Lists(list, Floored(list[i].value));
      UnlistedFloor(c, list, i, kind, dialect);
      var d := AtFloor(c, list[i].value);
      InListTruth(c, list, negated, d, dialect);
      InListParts(c, list, negated, d, dialect);
      assert !ExactAt(e, d, dialect);
    }
  }

  lemma UnlistedFloor(c: string, list: seq<Expr>, i: nat, kind: Kind, dialect: Dialect)
    requires LiteralList(list).Some? && i < |list|
    requires forall j :: 0 <= j < |list| ==> list[j].Literal? && LiteralKind(list[j].value) == kind
    requires !Lists(list, Floored(list[i].value))
    ensures !Whole(list[i].value)
    ensures var d := AtFloor(c, list[i].value);
            && Typed(InList(Column(c), list, false), d)
            && Matches(Terms(c, LiteralList(list).value), d, dialect)
            && Member(ReadColumn(d, c), EvalAll(list, d, dialect)) == False
  {
    var sv, js := list[i].value, LiteralList(list).value;
    WholeIsUnmoved(sv);
    var d := AtFloor(c, sv);
    AtFloorOrders(c, sv);
    LiteralListAt(list);
    assert StoredOrder(d, c, js[i]) == Some(Equal);
    EvalAllLiterals(list, d, dialect);
    var vs := EvalAll(list, d, dialect);
    MemberDecided(ReadColumn(d, c), vs);
    forall j | 0 <= j < |list|
      ensures Compare(ReadColumn(d, c), vs[j]).Some? && Compare(ReadColumn(d, c), vs[j]) != Some(Equal)
    {
      FlooredLiteralOrder(d, c, list[j].value);
    }
  }

  /** A `LIKE` is exact if and only if its pattern has no dangling escape. Where SQL refuses such
      patterns, `NOT LIKE` on nothing but `%` before the escape selects no row on either side. */
  lemma LikeExactIff(e: Expr, dialect: Dialect)
    requires e.Like? && ExprToQuery(e).Some?
    ensures var p := e.pattern.value.text.value;
            Exact(e, dialect) <==>
            !Dangling(p, '\\') || (e.negated && dialect.dangling == RejectPattern && OnlyAny(Tokens(p, '\\')))
  {
    var p := e.pattern.value.text.value;
    var ts, fold := Tokens(p, '\\'), Folding(dialect, e.caseInsensitive);
    if Faithful(e) {
      FaithfulIsExact(e, dialect);
    } else if !e.negated || dialect.dangling == LiteralEscape {
      var s := TooShort(p, fold, dialect.dangling);
      DanglingAt(e, s, dialect);
    } else if OnlyAny(ts) {
      forall d: Doc | Typed(e, d) && OddColumnsPresent(e, d, false) ensures ExactAt(e, d, dialect) {
        var s := d[e.expr.name].s;
        OnlyAnyTakesAll(ts, s, fold);
        RenderedTokensMatch(ts, s, fold);
        assert d == d[e.expr.name := Str(s)];
        DanglingOn(e, d, s, dialect);
      }
    } else {
      var s := Refused(ts, fold);
      RenderedTokensMatch(ts, s, fold);
      DanglingAt(e, s, dialect);
    }
  }

  /** What clause and SQL say of a stored string when the pattern dangles. */
  lemma DanglingOn(e: Expr, d: Doc, s: string, dialect: Dialect)
    requires e.Like? && ExprToQuery(e).Some? && e.expr.name in d && d[e.expr.name] == Str(s)
    requires Dangling(e.pattern.value.text.value, '\\')
    ensures var p, fold := e.pattern.value.text.value, Folding(dialect, e.caseInsensitive);
            && Matches(ExprToQuery(e).value, d, dialect) == (e.negated != ClauseMatches(LikeClause(p), s, fold))
            && TruthOf(e, d, dialect) == (if dialect.dangling == RejectPattern then Unknown
                                          else OfBool(e.negated != SqlLike(p, '\\', s, fold, dialect.dangling)))
  {
    var c, p := e.expr.name, e.pattern.value.text.value;
    assert Eval(e.expr, d, dialect) == Text(s) && Eval(e.pattern, d, dialect) == Text(p);
    var q := LikeToQuery(c, p, e.caseInsensitive);
    assert Matches(MustNotIf(e.negated, q), d, dialect) == (e.negated != Matches(q, d, dialect));
  }

  lemma DanglingAt(e: Expr, s: string, dialect: Dialect)
    requires e.Like? && ExprToQuery(e).Some? && Dangling(e.pattern.value.text.value, '\\')
    requires var p, fold := e.pattern.value.text.value, Folding(dialect, e.caseInsensitive);
             if e.negated && dialect.dangling == RejectPattern then !ClauseMatches(LikeClause(p), s, fold)
             else ClauseMatches(LikeClause(p), s, fold) && !SqlLike(p, '\\', s, fold, dialect.dangling)
    ensures !Exact(e, dialect)
  {
    var d: Doc := map[e.expr.name := Str(s)];
    DanglingOn(e, d, s, dialect);
    assert !ExactAt(e, d, dialect);
  }

  /** `LIKE` without specials is equality, and only `ILIKE` looks past case. */
  lemma PlainLike(c: string, p: string, ci: bool, d: Doc, dialect: Dialect)
    requires Plain(p)
    ensures var e := Like(Column(c), Literal(Utf8(Some(p))), None, ci, false);
            && ExprToQuery(e).Some?
            && (Matches(ExprToQuery(e).value, d, dialect) <==> TruthOf(e, d, dialect) == True)
            && (TruthOf(e, d, dialect) == True <==>
                && c in d && d[c].Str? && |d[c].s| == |p|
                && forall i :: 0 <= i < |p| ==>
                     d[c].s[i] == p[i] || (ci && dialect.fold(d[c].s[i]) == dialect.fold(p[i])))
  {
    var e := Like(Column(c), Literal(Utf8(Some(p))), None, ci, false);
    PlainPattern(p, [], Folding(dialect, ci));
    if c in d && d[c].Str? {
      PlainPattern(p, d[c].s, Folding(dialect, ci));
    }
    LikeTracks(e, d, dialect);
    assert Eval(e.expr, d, dialect) == ReadColumn(d, c) && Eval(e.pattern, d, dialect) == Text(p);
  }

  // ----- Absent columns

  /** One comparison, list, range or pattern that translates, under any number of `NOT`s. */
  predicate Atom(e: Expr) {
    && ExprToQuery(e).Some?
    && match e
       case BinaryExpr(_, op, _) => IsComparison(op)
       case Not(x) => Atom(x)
       case IsNull(_) => false
       case IsNotNull(_) => false
       case _ => true
  }

  /** Whether the atom is negated an odd number of times. */
  predicate OddlyNegated(e: Expr)
    requires Atom(e)
  {
    match e
    case BinaryExpr(_, op, _) => op.NotEq?
    case Not(x) => !OddlyNegated(x)
    case InList(_, _, negated) => negated
    case Between(_, _, _, negated) => negated
    case Like(_, _, _, _, negated) => negated
  }

  function AtomColumn(e: Expr): string
    requires Atom(e)
  {
    match e
    case BinaryExpr(l, op, r) => ColumnComparison(l, op, r).value.0
    case Not(x) => AtomColumn(x)
    case InList(x, _, _) => x.name
    case Between(x, _, _, _) => x.name
    case Like(x, _, _, _, _) => x.name
  }

  /** `IN ()`, the one atom that SQL decides without looking at its column. */
  predicate IsEmptyList(e: Expr)
    requires Atom(e)
  {
    match e
    case Not(x) => IsEmptyList(x)
    case InList(_, list, _) => list == []
    case _ => false
  }

  lemma {:induction false} AtomPolarity(e: Expr, d: Doc, odd: bool)
    requires Atom(e)
    ensures OddColumnsPresent(e, d, odd) <==> (odd != OddlyNegated(e) ==> AtomColumn(e) in d)
  {
    if e.Not? {
      AtomPolarity(e.inner, d, !odd);
    }
  }

  lemma AbsentList(c: string, list: seq<Expr>, negated: bool, d: Doc, dialect: Dialect)
    requires LiteralList(list).Some? && c !in d
    ensures var e := InList(Column(c), list, negated);
            && ExprToQuery(e).Some?
            && Matches(ExprToQuery(e).value, d, dialect) == negated
            && TruthOf(e, d, dialect) == if list == [] then OfBool(negated) else Unknown
  {
    var vs := EvalAll(list, d, dialect);
    EvalAllLiterals(list, d, dialect);
    MemberDecided(Null, vs);
    InListTruth(c, list, negated, d, dialect);
    InListParts(c, list, negated, d, dialect);
    assert !Matches(Terms(c, LiteralList(list).value), d, dialect);
    if list != [] {
      assert Compare(Null, vs[0]).None?;
    }
  }

  lemma AbsentRange(e: Expr, d: Doc, dialect: Dialect)
    requires e.Between? && ExprToQuery(e).Some? && e.expr.name !in d
    ensures Matches(ExprToQuery(e).value, d, dialect) == e.negated && TruthOf(e, d, dialect) == Unknown
  {
    assert Eval(e.expr, d, dialect) == Null;
    var q := Range(e.expr.name, None, LiteralJson(e.low), None, LiteralJson(e.high));
    assert Matches(MustNotIf(e.negated, q), d, dialect) == (e.negated != Matches(q, d, dialect));
  }

  lemma AbsentText(e: Expr, d: Doc, dialect: Dialect)
    requires e.Like? && ExprToQuery(e).Some? && e.expr.name !in d
    ensures Matches(ExprToQuery(e).value, d, dialect) == e.negated && TruthOf(e, d, dialect) == Unknown
  {
    assert Eval(e.expr, d, dialect) == Null;
    var q := LikeToQuery(e.expr.name, e.pattern.value.text.value, e.caseInsensitive);
    assert Matches(MustNotIf(e.negated, q), d, dialect) == (e.negated != Matches(q, d, dialect));
  }

  /** On a document that lacks the column an atom's clause matches exactly when the atom is oddly negated,
      while SQL is undecided. */
  lemma {:induction false} AbsentColumn(e: Expr, d: Doc, dialect: Dialect)
    requires Atom(e) && AtomColumn(e) !in d
    ensures Matches(ExprToQuery(e).value, d, dialect) == OddlyNegated(e)
    ensures TruthOf(e, d, dialect) == if IsEmptyList(e) then OfBool(OddlyNegated(e)) else Unknown
  {
    match e
    case BinaryExpr(l, _, r) =>
      ComparisonParts(l, e.op, r, d, dialect);
      ComparisonClause(l, e.op, r, d, dialect);
    case InList(x, list, negated) =>
      AbsentList(x.name, list, negated, d, dialect);
    case Between(_, _, _, _) =>
      AbsentRange(e, d, dialect);
    case Like(_, _, _, _, _) =>
      AbsentText(e, d, dialect);
    case Not(x) =>
      AbsentColumn(x, d, dialect);
  }

  /** `must_not` matches a document that lacks the column, where SQL is undecided: `!=`, `NOT IN`,
      `NOT BETWEEN`, `NOT LIKE`, and `NOT` over any atom. */
  lemma AbsentColumnWidens(e: Expr, d: Doc, dialect: Dialect)
    requires Atom(e) && OddlyNegated(e) && !IsEmptyList(e) && AtomColumn(e) !in d
    ensures Matches(ExprToQuery(e).value, d, dialect) && TruthOf(e, d, dialect) == Unknown
  {
    AbsentColumn(e, d, dialect);
  }

  /** A faithful, well-typed atom under any number of `NOT`s is exact on a document if and only if its
      column is present, it is evenly negated, or it is an empty list. */
  lemma AtomExactIff(e: Expr, d: Doc, dialect: Dialect)
    requires Atom(e) && Faithful(e) && Typed(e, d)
    ensures ExactAt(e, d, dialect) <==> AtomColumn(e) in d || !OddlyNegated(e) || IsEmptyList(e)
  {
    AtomPolarity(e, d, false);
    if AtomColumn(e) in d || !OddlyNegated(e) {
      PushdownIsExact(e, d, dialect);
    } else {
      AbsentColumn(e, d, dialect);
    }
  }

  /** A negated atom is exact on a document if and only if its column is present. */
  lemma NegatedAtomExactIffPresent(e: Expr, d: Doc, dialect: Dialect)
    requires Atom(e) && OddlyNegated(e) && !IsEmptyList(e) && Faithful(e) && Typed(e, d)
    ensures ExactAt(e, d, dialect) <==> AtomColumn(e) in d
  {
    AtomExactIff(e, d, dialect);
  }
}
