/** Translation of a filter into a query clause (src/pushdown.rs). `None` means the filter stays
    with DataFusion. */
module Pushdown {
  import opened Prelude
  import opened LikePatterns
  import opened Sql
  import opened QueryDsl

  const MILLIS_PER_DAY: int := 86_400_000

  function ColumnName(e: Expr): Option<string> {
    if e.Column? then Some(e.name) else None
  }

  function LiteralJson(e: Expr): Option<Json> {
    if e.Literal? then ScalarToJson(e.value) else None
  }

  function Millis(n: int): Json {
    JNum(n as real)
  }

  /** Rust's `i64::checked_mul`. */
  function CheckedMul(a: I64, b: I64): Option<I64> {
    var p := a * b;
    if -TWO_TO_THE_63 <= p < TWO_TO_THE_63 then Some(p) else None
  }

  /** Temporal literals become epoch milliseconds. Dafny's `/` is `div_euclid`. */
  function ScalarToJson(sv: ScalarValue): Option<Json> {
    match sv
    case Utf8(Some(s)) => Some(JStr(s))
    case BooleanValue(Some(b)) => Some(JBool(b))
    case Integer(Some(n)) => Some(JNum(n as real))
    case Float(Some(r)) => Some(JNum(r))
    case TimestampSecond(Some(t)) =>
      var m := CheckedMul(t, 1_000);
      if m.None? then None else Some(Millis(m.value))
    case TimestampMillisecond(Some(t)) => Some(Millis(t))
    case TimestampMicrosecond(Some(t)) => Some(Millis(t / 1_000))
    case TimestampNanosecond(Some(t)) => Some(Millis(t / 1_000_000))
    case Date32(Some(d)) => Some(Millis(d * MILLIS_PER_DAY))
    case _ => None
  }

  /** A `range` clause with the one bound that the comparison calls for. */
  function RangeClause(col: string, op: Operator, lit: Json): Query
    requires op.Gt? || op.GtEq? || op.Lt? || op.LtEq?
  {
    match op
    case Gt => Range(col, Some(lit), None, None, None)
    case GtEq => Range(col, None, Some(lit), None, None)
    case Lt => Range(col, None, None, Some(lit), None)
    case LtEq => Range(col, None, None, None, Some(lit))
  }

  /** The comparison with its operands exchanged. */
  function Flip(op: Operator): Operator {
    match op
    case Gt => Lt
    case GtEq => LtEq
    case Lt => Gt
    case LtEq => GtEq
    case _ => op
  }

  function ColLit(left: Expr, right: Expr): Option<(string, Json)> {
    match (ColumnName(left), LiteralJson(right))
    case (Some(c), Some(l)) => Some((c, l))
    case _ =>
      match (ColumnName(right), LiteralJson(left))
      case (Some(c), Some(l)) => Some((c, l))
      case _ => None
  }

  /** The literals of an `IN` list, or nothing if a member is not a translatable literal. */
  function LiteralList(list: seq<Expr>): Option<seq<Json>> {
    if list == [] then Some([])
    else match (LiteralJson(list[0]), LiteralList(list[1..]))
      case (Some(v), Some(vs)) => Some([v] + vs)
      case _ => None
  }

  /** The push loop of the `InList` arm. */
  method CollectLiterals(list: seq<Expr>) returns (res: Option<seq<Json>>)
    ensures res == LiteralList(list)
  {
    var values: seq<Json> := [];
    var i := 0;
    assert list[0..] == list;
    assert forall vs: seq<Json> :: [] + vs == vs;
    while i < |list|
      invariant 0 <= i <= |list|
      invariant LiteralList(list) == match LiteralList(list[i..]) case None => None case Some(vs) => Some(values + vs)
    {
      assert list[i..][1..] == list[i + 1..];
      var v := LiteralJson(list[i]);
      if v.None? {
        return None;
      }
      assert forall vs: seq<Json> :: values + ([v.value] + vs) == (values + [v.value]) + vs;
      values := values + [v.value];
      i := i + 1;
    }
    assert list[i..] == [] && values + [] == values;
    res := Some(values);
  }

  function MustNotIf(negated: bool, clause: Query): Query {
    if negated then MustNot(clause) else clause
  }

  function LikeToQuery(col: string, pattern: string, caseInsensitive: bool): Query {
    match LikeClause(pattern)
    case PrefixValue(v) => Prefix(col, v, caseInsensitive)
    case WildcardValue(v) => Wildcard(col, v, caseInsensitive)
  }

  function ExprToQuery(expr: Expr): Option<Query> {
    match expr
    case BinaryExpr(left, op, right) =>
      (match op
       case Eq =>
         (match ColLit(left, right) case None => None case Some((c, l)) => Some(Term(c, l)))
       case NotEq =>
         (match ColLit(left, right) case None => None case Some((c, l)) => Some(MustNot(Term(c, l))))
       case And =>
         (match (ExprToQuery(left), ExprToQuery(right))
          case (Some(l), Some(r)) => Some(Filter([l, r]))
          case _ => None)
       case Or =>
         (match (ExprToQuery(left), ExprToQuery(right))
          case (Some(l), Some(r)) => Some(Should([l, r]))
          case _ => None)
       case OtherOp(_) => None
       case _ =>
         (match (ColumnName(left), LiteralJson(right))
          case (Some(c), Some(l)) => Some(RangeClause(c, op, l))
          case _ =>
            match (ColumnName(right), LiteralJson(left))
            case (Some(c), Some(l)) => Some(RangeClause(c, Flip(op), l))
            case _ => None))
    case InList(e, list, negated) =>
      (match (ColumnName(e), LiteralList(list))
       case (Some(c), Some(vs)) => Some(MustNotIf(negated, Terms(c, vs)))
       case _ => None)
    case Between(e, low, high, negated) =>
      (match (ColumnName(e), LiteralJson(low), LiteralJson(high))
       case (Some(c), Some(lo), Some(hi)) => Some(MustNotIf(negated, Range(c, None, Some(lo), None, Some(hi))))
       case _ => None)
    case IsNotNull(e) =>
      (match ColumnName(e) case None => None case Some(c) => Some(Exists(c)))
    case IsNull(e) =>
      (match ColumnName(e) case None => None case Some(c) => Some(MustNot(Exists(c))))
    case Not(e) =>
      (match ExprToQuery(e) case None => None case Some(q) => Some(MustNot(q)))
    case Like(e, pattern, escapeChar, caseInsensitive, negated) =>
      if escapeChar.Some? && escapeChar.value != '\\' then None
      else
        (match (ColumnName(e), LiteralJson(pattern))
         case (Some(c), Some(JStr(p))) => Some(MustNotIf(negated, LikeToQuery(c, p, caseInsensitive)))
         case _ => None)
    case _ => None
  }
}
