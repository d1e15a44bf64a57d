/** What a translated filter may get wrong, one side at a time. Losing a row that SQL selects and keeping a
    row that SQL rejects are different mistakes: a floored literal or a dropped escape often makes only
    one of them possible. */
module Safety {
  import opened Prelude
  import opened LikePatterns
  import opened Sql
  import opened QueryDsl
  import opened Pushdown
  import opened Exactness
  import opened Boundaries

  /** At even negation depth, no selected row is missed; at odd depth, no rejected row is matched. */
  predicate OneSided(m: bool, t: Truth, odd: bool) {
    if odd then t == False ==> !m else t == True ==> m
  }

  ghost predicate AgreesOn(e: Expr, odd: bool, d: Doc, dialect: Dialect)
    requires ExprToQuery(e).Some?
  {
    OneSided(Matches(ExprToQuery(e).value, d, dialect), TruthOf(e, d, dialect), odd)
  }

  /** The operators, read with the column on the left, that a floored literal leaves on that side. */
  predicate SafeOperator(op: Operator, odd: bool) {
    op.Gt? || op.LtEq? || if odd then op.Lt? || op.NotEq? else op.GtEq? || op.Eq?
  }

  /** A condition on the filter alone under which its clause makes no mistake on that side, on any
      document. */
  ghost predicate Safe(e: Expr, odd: bool, dialect: Dialect) {
    match e
    case BinaryExpr(l, op, r) =>
      if op.And? || op.Or? then Safe(l, odd, dialect) && Safe(r, odd, dialect)
      else (match ColumnComparison(l, op, r)
            case None => true
            case Some((c, o, sv)) => Whole(sv) || SafeOperator(o, odd))
    case InList(_, list, negated) => odd == negated || FaithfulList(list)
    case Between(_, _, _, negated) => odd == negated || Faithful(e)
    case Like(_, p, _, ci, negated) =>
      || Faithful(e)
      || dialect.dangling == RejectPattern
      || (odd == negated && Absorbs(Tokens(p.value.text.value, '\\'), Lit('\\'), Folding(dialect, ci)))
    case Not(x) => Safe(x, !odd, dialect)
    case _ => true
  }

  lemma {:induction false} FaithfulIsSafe(e: Expr, odd: bool, dialect: Dialect)
    requires Faithful(e)
    ensures Safe(e, odd, dialect)
  {
    match e
    case BinaryExpr(l, op, r) =>
      if op.And? || op.Or? {
        FaithfulIsSafe(l, odd, dialect);
        FaithfulIsSafe(r, odd, dialect);
      }
    case Not(x) => FaithfulIsSafe(x, !odd, dialect);
    case _ =>
  }

  // ----- Atoms

  lemma ComparisonAgrees(l: Expr, op: Operator, r: Expr, odd: bool, d: Doc, dialect: Dialect)
    requires IsComparison(op) && ExprToQuery(BinaryExpr(l, op, r)).Some? && Safe(BinaryExpr(l, op, r), odd, dialect)
    ensures AgreesOn(BinaryExpr(l, op, r), odd, d, dialect)
  {
    var (c, o, sv) := ColumnComparison(l, op, r).value;
    ComparisonParts(l, op, r, d, dialect);
    ComparisonClause(l, op, r, d, dialect);
    FlooredLiteralOrder(d, c, sv);
  }

  /** A floored list misses nothing: a value equal to a member is equal to the floored member. */
  lemma InListMissesNothing(c: string, list: seq<Expr>, negated: bool, d: Doc, dialect: Dialect)
    requires LiteralList(list).Some?
    ensures AgreesOn(InList(Column(c), list, negated), negated, d, dialect)
  {
    var js := LiteralList(list).value;
    var sql, stored := SqlOrders(d, c, list), StoredOrders(d, c, js);
    LiteralListAt(list);
    InListTruth(c, list, negated, d, dialect);
    InListParts(c, list, negated, d, dialect);
    MemberOfLiterals(list, d, c, dialect);
    TermsMatches(c, js, d, dialect);
    if Some(Equal) in sql {
      var i :| 0 <= i < |sql| && sql[i] == Some(Equal);
      FlooredLiteralOrder(d, c, list[i].value);
      assert stored[i] in stored;
    }
  }

  lemma BetweenParts(c: string, lo: ScalarValue, hi: ScalarValue, negated: bool, d: Doc, dialect: Dialect)
    requires ScalarToJson(lo).Some? && ScalarToJson(hi).Some?
    ensures var e := Between(Column(c), Literal(lo), Literal(hi), negated);
            var q := Range(c, None, Some(ScalarToJson(lo).value), None, Some(ScalarToJson(hi).value));
            var x := ReadColumn(d, c);
            && ExprToQuery(e).Some?
            && Matches(ExprToQuery(e).value, d, dialect) == (negated != Matches(q, d, dialect))
            && TruthOf(e, d, dialect) ==
               NegateIf(negated, Both(CompareTruth(GtEq, x, Value(lo)), CompareTruth(LtEq, x, Value(hi))))
  {
    assert Eval(Column(c), d, dialect) == ReadColumn(d, c);
    assert Eval(Literal(lo), d, dialect) == Value(lo) && Eval(Literal(hi), d, dialect) == Value(hi);
  }

  lemma BetweenMissesNothing(c: string, lo: ScalarValue, hi: ScalarValue, negated: bool, d: Doc, dialect: Dialect)
    requires ScalarToJson(lo).Some? && ScalarToJson(hi).Some?
    ensures AgreesOn(Between(Column(c), Literal(lo), Literal(hi), negated), negated, d, dialect)
  {
    BetweenParts(c, lo, hi, negated, d, dialect);
    FlooredLiteralOrder(d, c, lo);
    FlooredLiteralOrder(d, c, hi);
  }

  lemma DanglingAgrees(e: Expr, odd: bool, d: Doc, dialect: Dialect)
    requires e.Like? && ExprToQuery(e).Some? && Safe(e, odd, dialect) && !Faithful(e)
    ensures AgreesOn(e, odd, d, dialect)
  {
    var c, p := e.expr.name, e.pattern.value.text.value;
    if c in d && d[c].Str? {
      DanglingOn(e, d, d[c].s, dialect);
      DroppedEscapeLosesNothingIff(p, Folding(dialect, e.caseInsensitive));
    } else {
      assert Eval(e.expr, d, dialect) == ReadColumn(d, c);
    }
  }

  // ----- Every filter

  /** Tracking a truth value leaves no mistake on either side. */
  lemma TrackedAgrees(e: Expr, odd: bool, d: Doc, dialect: Dialect)
    requires ExprToQuery(e).Some? && Tracks(e, d, dialect)
    ensures AgreesOn(e, odd, d, dialect)
  {
  }

  lemma JunctionAgrees(l: Expr, op: Operator, r: Expr, odd: bool, d: Doc, dialect: Dialect)
    requires (op.And? || op.Or?) && ExprToQuery(BinaryExpr(l, op, r)).Some?
    requires AgreesOn(l, odd, d, dialect) && AgreesOn(r, odd, d, dialect)
    ensures AgreesOn(BinaryExpr(l, op, r), odd, d, dialect)
  {
    JunctionClause(l, op, r, d, dialect);
    JunctionParts(l, op, r, d, dialect);
  }

  lemma {:induction false} SafeAgrees(e: Expr, odd: bool, d: Doc, dialect: Dialect)
    requires ExprToQuery(e).Some? && Safe(e, odd, dialect)
    ensures AgreesOn(e, odd, d, dialect)
  {
    match e
    case BinaryExpr(l, op, r) =>
      if op.And? || op.Or? {
        SafeAgrees(l, odd, d, dialect);
        SafeAgrees(r, odd, d, dialect);
        JunctionAgrees(l, op, r, odd, d, dialect);
      } else {
        ComparisonAgrees(l, op, r, odd, d, dialect);
      }
    case InList(x, list, negated) =>
      if odd == negated {
        InListMissesNothing(x.name, list, negated, d, dialect);
      } else {
        InListTracks(x.name, list, negated, d, dialect);
        TrackedAgrees(e, odd, d, dialect);
      }
    case Between(x, lo, hi, negated) =>
      if odd == negated {
        BetweenMissesNothing(x.name, lo.value, hi.value, negated, d, dialect);
      } else {
        BetweenTracks(x.name, lo.value, hi.value, negated, d, dialect);
        TrackedAgrees(e, odd, d, dialect);
      }
    case Like(_, _, _, _, _) =>
      if Faithful(e) {
        LikeTracks(e, d, dialect);
        TrackedAgrees(e, odd, d, dialect);
      } else {
        DanglingAgrees(e, odd, d, dialect);
      }
    case Not(x) =>
      SafeAgrees(x, !odd, d, dialect);
    case _ =>
      TranslationTracks(e, d, dialect);
      TrackedAgrees(e, odd, d, dialect);
  }

  /** On every document, absent columns and ill-typed comparisons included: a filter that is safe at even
      depth loses no row SQL selects, and one that is safe at odd depth keeps no row SQL rejects. */
  lemma PushdownAgreesWhereSqlDecides(e: Expr, d: Doc, dialect: Dialect)
    requires ExprToQuery(e).Some?
    ensures Safe(e, false, dialect) && TruthOf(e, d, dialect) == True ==> Matches(ExprToQuery(e).value, d, dialect)
    ensures Safe(e, true, dialect) && TruthOf(e, d, dialect) == False ==> !Matches(ExprToQuery(e).value, d, dialect)
  {
    if Safe(e, false, dialect) {
      SafeAgrees(e, false, d, dialect);
    }
    if Safe(e, true, dialect) {
      SafeAgrees(e, true, d, dialect);
    }
  }

  // ----- Exactly when an atom is safe

  /** The literals of a list or range are of one type, as DataFusion's analyzer makes them. */
  predicate OneKind(e: Expr) {
    match e
    case InList(_, list, _) =>
      forall i, j :: 0 <= i < |list| && 0 <= j < |list| && list[i].Literal? && list[j].Literal? ==>
        LiteralKind(list[i].value) == LiteralKind(list[j].value)
    case Between(_, lo, hi, _) => lo.Literal? && hi.Literal? ==> LiteralKind(lo.value) == LiteralKind(hi.value)
    case Not(x) => OneKind(x)
    case _ => true
  }

  lemma ComparisonMistake(l: Expr, op: Operator, r: Expr, odd: bool, dialect: Dialect) returns (d: Doc)
    requires IsComparison(op) && ExprToQuery(BinaryExpr(l, op, r)).Some? && !Safe(BinaryExpr(l, op, r), odd, dialect)
    ensures !AgreesOn(BinaryExpr(l, op, r), odd, d, dialect)
  {
    var (c, o, sv) := ColumnComparison(l, op, r).value;
    d := AtFloor(c, sv);
    AtFloorOrders(c, sv);
    ComparisonParts(l, op, r, d, dialect);
    ComparisonClause(l, op, r, d, dialect);
  }

  lemma InListMistake(c: string, list: seq<Expr>, negated: bool, dialect: Dialect) returns (d: Doc)
    requires LiteralList(list).Some? && OneKind(InList(Column(c), list, negated)) && !FaithfulList(list)
    ensures !AgreesOn(InList(Column(c), list, negated), !negated, d, dialect)
  {
    var i :| 0 <= i < |list| && list[i].Literal? && !Lists(list, Floored(list[i].value));
    LiteralListAt(list);
    UnlistedFloor(c, list, i, LiteralKind(list[i].value), dialect);
    d := AtFloor(c, list[i].value);
    InListTruth(c, list, negated, d, dialect);
    InListParts(c, list, negated, d, dialect);
  }

  lemma BetweenMistake(c: string, lo: ScalarValue, hi: ScalarValue, negated: bool, dialect: Dialect) returns (d: Doc)
    requires ScalarToJson(lo).Some? && ScalarToJson(hi).Some? && LiteralKind(lo) == LiteralKind(hi)
    requires !Faithful(Between(Column(c), Literal(lo), Literal(hi), negated))
    ensures !AgreesOn(Between(Column(c), Literal(lo), Literal(hi), negated), !negated, d, dialect)
  {
    d := AtFloor(c, lo);
    AtFloorOrders(c, lo);
    FlooredLiteralOrder(d, c, hi);
    BetweenParts(c, lo, hi, negated, d, dialect);
  }

  lemma LikeMistake(e: Expr, odd: bool, dialect: Dialect) returns (d: Doc)
    requires e.Like? && ExprToQuery(e).Some? && !Safe(e, odd, dialect)
    ensures !AgreesOn(e, odd, d, dialect)
  {
    var p, fold := e.pattern.value.text.value, Folding(dialect, e.caseInsensitive);
    var s;
    if odd == e.negated {
      DroppedEscapeLosesNothingIff(p, fold);
      s :| SqlLike(p, '\\', s, fold, LiteralEscape) && !ClauseMatches(LikeClause(p), s, fold);
    } else {
      s := TooShort(p, fold, LiteralEscape);
    }
    d := map[e.expr.name := Str(s)];
    DanglingOn(e, d, s, dialect);
  }

  lemma {:induction false} AtomMistake(e: Expr, odd: bool, dialect: Dialect) returns (d: Doc)
    requires Atom(e) && OneKind(e) && !Safe(e, odd, dialect)
    ensures !AgreesOn(e, odd, d, dialect)
  {
    match e
    case BinaryExpr(l, op, r) => d := ComparisonMistake(l, op, r, odd, dialect);
    case InList(x, list, negated) => d := InListMistake(x.name, list, negated, dialect);
    case Between(x, lo, hi, negated) => d := BetweenMistake(x.name, lo.value, hi.value, negated, dialect);
    case Like(_, _, _, _, _) => d := LikeMistake(e, odd, dialect);
    case Not(x) => d := AtomMistake(x, !odd, dialect);
  }

  /** A comparison, list, range or pattern, under any number of `NOT`s, loses no selected row (`odd` false)
      or keeps no rejected row (`odd` true) on all documents if and only if it is safe on that side. */
  lemma AtomAgreesIff(e: Expr, odd: bool, dialect: Dialect)
    requires Atom(e) && OneKind(e)
    ensures (forall d: Doc :: AgreesOn(e, odd, d, dialect)) <==> Safe(e, odd, dialect)
  {
    if Safe(e, odd, dialect) {
      forall d: Doc ensures AgreesOn(e, odd, d, dialect) {
        SafeAgrees(e, odd, d, dialect);
      }
    } else {
      var d := AtomMistake(e, odd, dialect);
    }
  }
}
