/** Exactness by polarity is the whole truth: for filters whose parts are independent, the columns compared at
    odd negation depth are exactly the ones whose presence the contract of src/pushdown.rs:3-7 needs. */
module Polarity {
  import opened Prelude
  import opened LikePatterns
  import opened Sql
  import opened QueryDsl
  import opened Pushdown
  import opened Exactness
  import opened Boundaries
  import opened Safety

  // ----- Columns of a filter

  function ColumnsOf(e: Expr): set<string> {
    match e
    case BinaryExpr(l, op, r) =>
      if op.And? || op.Or? then ColumnsOf(l) + ColumnsOf(r)
      else (match ColumnComparison(l, op, r) case None => {} case Some((c, _, _)) => {c})
    case InList(x, _, _) => NameOf(x)
    case Between(x, _, _, _) => NameOf(x)
    case Like(x, _, _, _, _) => NameOf(x)
    case Not(x) => ColumnsOf(x)
    case IsNull(x) => NameOf(x)
    case IsNotNull(x) => NameOf(x)
    case _ => {}
  }

  function NameOf(x: Expr): set<string> {
    if x.Column? then {x.name} else {}
  }

  /** The columns compared at odd negation depth. */
  function OddColumns(e: Expr, odd: bool): set<string> {
    match e
    case BinaryExpr(l, op, r) =>
      if op.And? || op.Or? then OddColumns(l, odd) + OddColumns(r, odd)
      else if odd != op.NotEq? then ColumnsOf(e) else {}
    case InList(x, _, negated) => if odd != negated then NameOf(x) else {}
    case Between(x, _, _, negated) => if odd != negated then NameOf(x) else {}
    case Like(x, _, _, _, negated) => if odd != negated then NameOf(x) else {}
    case Not(x) => OddColumns(x, !odd)
    case _ => {}
  }

  lemma {:induction false} OddColumnsPresentIff(e: Expr, d: Doc, odd: bool)
    ensures OddColumnsPresent(e, d, odd) <==> OddColumns(e, odd) <= d.Keys
  {
    match e
    case BinaryExpr(l, op, r) =>
      if op.And? || op.Or? {
        OddColumnsPresentIff(l, d, odd);
        OddColumnsPresentIff(r, d, odd);
      }
    case Not(x) => OddColumnsPresentIff(x, d, !odd);
    case _ =>
  }

  /** No column occurs on both sides of an `AND` or `OR`. */
  predicate ReadOnce(e: Expr) {
    match e
    case BinaryExpr(l, op, r) =>
      op.And? || op.Or? ==> ReadOnce(l) && ReadOnce(r) && ColumnsOf(l) !! ColumnsOf(r)
    case Not(x) => ReadOnce(x)
    case _ => true
  }

  // ----- A filter sees only its columns

  predicate SameOn(cols: set<string>, d: Doc, d': Doc) {
    forall c :: c in cols ==> (c in d <==> c in d') && (c in d ==> d[c] == d'[c])
  }

  ghost predicate SeenAlike(e: Expr, d: Doc, d': Doc, dialect: Dialect)
    requires ExprToQuery(e).Some?
  {
    && Matches(ExprToQuery(e).value, d, dialect) == Matches(ExprToQuery(e).value, d', dialect)
    && TruthOf(e, d, dialect) == TruthOf(e, d', dialect)
    && Typed(e, d) == Typed(e, d')
  }

  lemma LocalComparison(l: Expr, op: Operator, r: Expr, d: Doc, d': Doc, dialect: Dialect)
    requires IsComparison(op) && ExprToQuery(BinaryExpr(l, op, r)).Some?
    requires SameOn(ColumnsOf(BinaryExpr(l, op, r)), d, d')
    ensures SeenAlike(BinaryExpr(l, op, r), d, d', dialect)
  {
    var (c, o, sv) := ColumnComparison(l, op, r).value;
    assert c in ColumnsOf(BinaryExpr(l, op, r));
    ComparisonParts(l, op, r, d, dialect);
    ComparisonParts(l, op, r, d', dialect);
    ComparisonClause(l, op, r, d, dialect);
    ComparisonClause(l, op, r, d', dialect);
  }

  lemma LocalList(c: string, list: seq<Expr>, negated: bool, d: Doc, d': Doc, dialect: Dialect)
    requires LiteralList(list).Some? && SameOn({c}, d, d')
    ensures SeenAlike(InList(Column(c), list, negated), d, d', dialect)
  {
    var js := LiteralList(list).value;
    InListParts(c, list, negated, d, dialect);
    InListParts(c, list, negated, d', dialect);
    InListTruth(c, list, negated, d, dialect);
    InListTruth(c, list, negated, d', dialect);
    EvalAllLiterals(list, d, dialect);
    EvalAllLiterals(list, d', dialect);
    assert EvalAll(list, d, dialect) == EvalAll(list, d', dialect);
    TermsMatches(c, js, d, dialect);
    TermsMatches(c, js, d', dialect);
    assert StoredOrders(d, c, js) == StoredOrders(d', c, js);
  }

  lemma LocalRange(c: string, lo: ScalarValue, hi: ScalarValue, negated: bool, d: Doc, d': Doc, dialect: Dialect)
    requires ScalarToJson(lo).Some? && ScalarToJson(hi).Some? && SameOn({c}, d, d')
    ensures SeenAlike(Between(Column(c), Literal(lo), Literal(hi), negated), d, d', dialect)
  {
    BetweenParts(c, lo, hi, negated, d, dialect);
    BetweenParts(c, lo, hi, negated, d', dialect);
  }

  lemma PatternTruth(e: Expr, d: Doc, dialect: Dialect)
    requires e.Like? && ExprToQuery(e).Some?
    ensures TruthOf(e, d, dialect) ==
            NegateIf(e.negated, LikeTruth(ReadColumn(d, e.expr.name), Text(e.pattern.value.text.value), '\\',
                                          Folding(dialect, e.caseInsensitive), dialect.dangling))
  {
    assert Eval(e.expr, d, dialect) == ReadColumn(d, e.expr.name);
    assert Eval(e.pattern, d, dialect) == Text(e.pattern.value.text.value);
  }

  lemma LocalPattern(e: Expr, d: Doc, d': Doc, dialect: Dialect)
    requires e.Like? && ExprToQuery(e).Some? && SameOn(ColumnsOf(e), d, d')
    ensures SeenAlike(e, d, d', dialect)
  {
    var c, p := e.expr.name, e.pattern.value.text.value;
    assert c in ColumnsOf(e);
    PatternTruth(e, d, dialect);
    PatternTruth(e, d', dialect);
    var q := LikeToQuery(c, p, e.caseInsensitive);
    assert Matches(MustNotIf(e.negated, q), d, dialect) == (e.negated != Matches(q, d, dialect));
    assert Matches(MustNotIf(e.negated, q), d', dialect) == (e.negated != Matches(q, d', dialect));
  }

  lemma LocalNullTest(c: string, d: Doc, d': Doc, dialect: Dialect)
    requires SameOn({c}, d, d')
    ensures SeenAlike(IsNull(Column(c)), d, d', dialect) && SeenAlike(IsNotNull(Column(c)), d, d', dialect)
  {
    assert c in {c};
    assert Eval(Column(c), d, dialect) == ReadColumn(d, c) == ReadColumn(d', c) == Eval(Column(c), d', dialect);
    assert Matches(MustNot(Exists(c)), d, dialect) == !Matches(Exists(c), d, dialect);
    assert Matches(MustNot(Exists(c)), d', dialect) == !Matches(Exists(c), d', dialect);
  }

  lemma {:induction false} Local(e: Expr, d: Doc, d': Doc, dialect: Dialect)
    requires ExprToQuery(e).Some? && SameOn(ColumnsOf(e), d, d')
    ensures SeenAlike(e, d, d', dialect)
  {
    match e
    case BinaryExpr(l, op, r) =>
      if op.And? || op.Or? {
        Local(l, d, d', dialect);
        Local(r, d, d', dialect);
        JunctionClause(l, op, r, d, dialect);
        JunctionClause(l, op, r, d', dialect);
        JunctionParts(l, op, r, d, dialect);
        JunctionParts(l, op, r, d', dialect);
      } else {
        LocalComparison(l, op, r, d, d', dialect);
      }
    case InList(x, list, negated) => LocalList(x.name, list, negated, d, d', dialect);
    case Between(x, lo, hi, negated) => LocalRange(x.name, lo.value, hi.value, negated, d, d', dialect);
    case Like(_, _, _, _, _) => LocalPattern(e, d, d', dialect);
    case Not(x) => Local(x, d, d', dialect);
    case IsNull(x) => LocalNullTest(x.name, d, d', dialect);
    case IsNotNull(x) => LocalNullTest(x.name, d, d', dialect);
  }

  // ----- Independent parts

  /** A well-typed document with all columns of `present` that `e` reads. */
  predicate Fits(e: Expr, d: Doc, present: set<string>) {
    Typed(e, d) && ColumnsOf(e) * present <= d.Keys
  }

  ghost predicate CanBe(e: Expr, t: Truth, present: set<string>, dialect: Dialect) {
    exists d: Doc :: Fits(e, d, present) && TruthOf(e, d, dialect) == t
  }

  /** Every comparison, list, range, pattern and null test can be true and can be false where the columns of
      `present` are. */
  ghost predicate Flexible(e: Expr, present: set<string>, dialect: Dialect) {
    match e
    case BinaryExpr(l, op, r) =>
      if op.And? || op.Or? then Flexible(l, present, dialect) && Flexible(r, present, dialect)
      else CanBe(e, True, present, dialect) && CanBe(e, False, present, dialect)
    case Not(x) => Flexible(x, present, dialect)
    case _ => CanBe(e, True, present, dialect) && CanBe(e, False, present, dialect)
  }

  function Restricted(d: Doc, cols: set<string>): Doc {
    map c | c in d && c in cols :: d[c]
  }

  /** Documents for two independent parts make one for both. */
  lemma Joined(l: Expr, op: Operator, r: Expr, dl: Doc, dr: Doc, present: set<string>, dialect: Dialect)
    requires (op.And? || op.Or?) && ExprToQuery(BinaryExpr(l, op, r)).Some? && ReadOnce(BinaryExpr(l, op, r))
    requires Fits(l, dl, present) && dl.Keys <= ColumnsOf(l) && Fits(r, dr, present) && dr.Keys <= ColumnsOf(r)
    ensures var e, d := BinaryExpr(l, op, r), dl + dr;
            && Fits(e, d, present) && d.Keys <= ColumnsOf(e)
            && SeenAlike(l, dl, d, dialect) && SeenAlike(r, dr, d, dialect)
  {
    var d := dl + dr;
    Local(l, dl, d, dialect);
    Local(r, dr, d, dialect);
    JunctionParts(l, op, r, d, dialect);
  }

  lemma {:induction false} Decide(e: Expr, t: Truth, present: set<string>, dialect: Dialect) returns (d: Doc)
    requires ExprToQuery(e).Some? && ReadOnce(e) && Flexible(e, present, dialect) && !t.Unknown?
    ensures Fits(e, d, present) && TruthOf(e, d, dialect) == t && d.Keys <= ColumnsOf(e)
  {
    if e.BinaryExpr? && (e.op.And? || e.op.Or?) {
      var dl := Decide(e.left, t, present, dialect);
      var dr := Decide(e.right, t, present, dialect);
      Joined(e.left, e.op, e.right, dl, dr, present, dialect);
      d := dl + dr;
      JunctionParts(e.left, e.op, e.right, d, dialect);
    } else if e.Not? {
      d := Decide(e.inner, Negate(t), present, dialect);
    } else {
      assert CanBe(e, t, present, dialect);
      var wide: Doc :| Fits(e, wide, present) && TruthOf(e, wide, dialect) == t;
      d := Restricted(wide, ColumnsOf(e));
      Local(e, wide, d, dialect);
    }
  }

  // ----- The converse

  lemma FlexibleIsNotEmpty(e: Expr, present: set<string>, dialect: Dialect)
    requires Atom(e) && !e.Not? && Flexible(e, present, dialect)
    ensures !IsEmptyList(e)
  {
    if IsEmptyList(e) {
      var yes: Doc :| Fits(e, yes, present) && TruthOf(e, yes, dialect) == True;
      var no: Doc :| Fits(e, no, present) && TruthOf(e, no, dialect) == False;
      InListTruth(e.expr.name, [], e.negated, yes, dialect);
      InListTruth(e.expr.name, [], e.negated, no, dialect);
      assert false;
    }
  }

  lemma AtomUndecided(e: Expr, odd: bool, c: string, present: set<string>, dialect: Dialect)
    requires Atom(e) && !e.Not? && Flexible(e, present, dialect) && c in OddColumns(e, odd) && c !in present
    ensures Fits(e, map[], present) && TruthOf(e, map[], dialect) == Unknown
    ensures Matches(ExprToQuery(e).value, map[], dialect) == !odd
  {
    FlexibleIsNotEmpty(e, present, dialect);
    AbsentColumn(e, map[], dialect);
    assert ColumnsOf(e) == {c};
  }

  /** An absent column at odd depth makes the filter undecided and its clause match, or at odd depth not match,
      when everything beside it is decided the way that lets it through. */
  lemma {:induction false} Undecided(e: Expr, odd: bool, c: string, present: set<string>, dialect: Dialect) returns (d: Doc)
    requires ExprToQuery(e).Some? && Faithful(e) && ReadOnce(e) && Flexible(e, present, dialect)
    requires c in OddColumns(e, odd) && c !in present
    ensures Fits(e, d, present) && d.Keys <= ColumnsOf(e)
    ensures TruthOf(e, d, dialect) == Unknown && Matches(ExprToQuery(e).value, d, dialect) == !odd
  {
    if e.BinaryExpr? && (e.op.And? || e.op.Or?) {
      var l, r := e.left, e.right;
      var through := if e.op.And? then True else False;
      var dl, dr;
      if c in OddColumns(l, odd) {
        dl := Undecided(l, odd, c, present, dialect);
        dr := Decide(r, through, present, dialect);
        TranslationTracks(r, dr, dialect);
      } else {
        dl := Decide(l, through, present, dialect);
        dr := Undecided(r, odd, c, present, dialect);
        TranslationTracks(l, dl, dialect);
      }
      Joined(l, e.op, r, dl, dr, present, dialect);
      d := dl + dr;
      JunctionParts(l, e.op, r, d, dialect);
      JunctionClause(l, e.op, r, d, dialect);
    } else if e.Not? {
      d := Undecided(e.inner, !odd, c, present, dialect);
    } else {
      d := map[];
      AtomUndecided(e, odd, c, present, dialect);
    }
  }

  ghost predicate ExactWhere(e: Expr, present: set<string>, dialect: Dialect)
    requires ExprToQuery(e).Some?
  {
    forall d: Doc :: Typed(e, d) && present <= d.Keys ==> ExactAt(e, d, dialect)
  }

  lemma NotExactWhere(e: Expr, c: string, present: set<string>, dialect: Dialect)
    requires ExprToQuery(e).Some? && Faithful(e) && ReadOnce(e) && Flexible(e, present, dialect)
    requires c in OddColumns(e, false) && c !in present
    ensures !ExactWhere(e, present, dialect)
  {
    var d := Undecided(e, false, c, present, dialect);
    var all: Doc := d + map k | k in present && k !in ColumnsOf(e) :: Str("");
    Local(e, d, all, dialect);
    assert present <= all.Keys && !ExactAt(e, all, dialect);
  }

  /** A faithful filter whose parts are independent is exact on all well-typed documents that have the columns
      of `present` if and only if every column it compares at odd negation depth is among them. */
  lemma ExactWhereIff(e: Expr, present: set<string>, dialect: Dialect)
    requires ExprToQuery(e).Some? && Faithful(e) && ReadOnce(e) && Flexible(e, present, dialect)
    ensures ExactWhere(e, present, dialect) <==> OddColumns(e, false) <= present
  {
    if OddColumns(e, false) <= present {
      forall d: Doc | Typed(e, d) && present <= d.Keys ensures ExactAt(e, d, dialect) {
        OddColumnsPresentIff(e, d, false);
        PushdownIsExact(e, d, dialect);
      }
    } else {
      var c :| c in OddColumns(e, false) && c !in present;
      NotExactWhere(e, c, present, dialect);
    }
  }
}
