/** The source language: documents, SQL scalars, the predicate trees DataFusion hands to the
    connector, and their three-valued meaning (ISO/IEC 9075:1992, sections 8.2 to 8.6 and 8.12). */
module Sql {
  import opened Prelude
  import opened LikePatterns

  /** A value stored in a single-valued, non-analysed field of a document. Dates are milliseconds
      since the epoch, the unit of the connector's timestamp columns. */
  datatype Scalar = Str(s: string) | Bool(b: bool) | Num(r: real) | Date(millis: int)

  /** A document: its present fields. A JSON null is an absent field. */
  type Doc = map<string, Scalar>

  /** The result of evaluating an expression. Instants are exact, in nanoseconds. */
  datatype Datum = Null | Text(s: string) | Boolean(b: bool) | Number(r: real) | Instant(ns: int)

  const NANOS_PER_MILLI: int := 1_000_000

  function ReadColumn(d: Doc, name: string): Datum {
    if name !in d then Null
    else match d[name]
      case Str(s) => Text(s)
      case Bool(b) => Boolean(b)
      case Num(r) => Number(r)
      case Date(m) => Instant(m * NANOS_PER_MILLI)
  }

  // ----- Order

  datatype Order = Less | Equal | Greater {
    function Swap(): Order {
      match this case Less => Greater case Equal => Equal case Greater => Less
    }
  }

  function CompareReal(a: real, b: real): Order {
    if a < b then Less else if a == b then Equal else Greater
  }

  function CompareInt(a: int, b: int): Order {
    if a < b then Less else if a == b then Equal else Greater
  }

  function CompareBool(a: bool, b: bool): Order {
    if a == b then Equal else if b then Less else Greater
  }

  /** Code-point order, which is also the byte order of UTF-8. */
  function CompareText(a: string, b: string): Order {
    if a == [] then (if b == [] then Equal else Less)
    else if b == [] then Greater
    else if a[0] == b[0] then CompareText(a[1..], b[1..])
    else if a[0] < b[0] then Less else Greater
  }

  /** No order when a side is null. SQL refuses to compare values of different types; an
      ill-typed comparison is given no order either. */
  function Compare(a: Datum, b: Datum): Option<Order> {
    match (a, b)
    case (Text(x), Text(y)) => Some(CompareText(x, y))
    case (Boolean(x), Boolean(y)) => Some(CompareBool(x, y))
    case (Number(x), Number(y)) => Some(CompareReal(x, y))
    case (Instant(x), Instant(y)) => Some(CompareInt(x, y))
    case _ => None
  }

  // ----- Three-valued logic

  datatype Truth = True | False | Unknown

  function OfBool(b: bool): Truth { if b then True else False }

  function Negate(t: Truth): Truth {
    match t case True => False case False => True case Unknown => Unknown
  }

  function NegateIf(negated: bool, t: Truth): Truth { if negated then Negate(t) else t }

  function Both(a: Truth, b: Truth): Truth {
    if a == False || b == False then False else if a == True && b == True then True else Unknown
  }

  function Either(a: Truth, b: Truth): Truth {
    if a == True || b == True then True else if a == False && b == False then False else Unknown
  }

  function ToTruth(v: Datum): Truth { if v.Boolean? then OfBool(v.b) else Unknown }

  function OfTruth(t: Truth): Datum {
    match t case True => Boolean(true) case False => Boolean(false) case Unknown => Null
  }

  // ----- Expressions

  /** The literals of the plan. `Integer` stands for the eight integer widths, which all translate
      alike; `Float` for finite floats; `Unmodelled` for the types the connector leaves to
      DataFusion (decimals, nested values). */
  datatype ScalarValue =
    | Utf8(text: Option<string>)
    | BooleanValue(flag: Option<bool>)
    | Integer(whole: Option<int>)
    | Float(frac: Option<real>)
    | TimestampSecond(ts: Option<I64>)
    | TimestampMillisecond(tms: Option<I64>)
    | TimestampMicrosecond(tus: Option<I64>)
    | TimestampNanosecond(tns: Option<I64>)
    | Date32(days: Option<I32>)
    | Unmodelled(datum: Datum)

  function Value(sv: ScalarValue): Datum {
    match sv
    case Utf8(Some(s)) => Text(s)
    case BooleanValue(Some(b)) => Boolean(b)
    case Integer(Some(n)) => Number(n as real)
    case Float(Some(r)) => Number(r)
    case TimestampSecond(Some(t)) => Instant(t * 1_000_000_000)
    case TimestampMillisecond(Some(t)) => Instant(t * NANOS_PER_MILLI)
    case TimestampMicrosecond(Some(t)) => Instant(t * 1_000)
    case TimestampNanosecond(Some(t)) => Instant(t)
    case Date32(Some(d)) => Instant(d * 86_400_000 * NANOS_PER_MILLI)
    case Unmodelled(v) => v
    case _ => Null
  }

  /** `OtherOp` is any operator the connector does not translate. */
  datatype Operator = Eq | NotEq | Gt | GtEq | Lt | LtEq | And | Or | OtherOp(apply: (Datum, Datum) -> Datum)

  predicate IsComparison(op: Operator) {
    op.Eq? || op.NotEq? || op.Gt? || op.GtEq? || op.Lt? || op.LtEq?
  }

  predicate Holds(op: Operator, o: Order)
    requires IsComparison(op)
  {
    match op
    case Eq => o == Equal
    case NotEq => o != Equal
    case Gt => o == Greater
    case GtEq => o != Less
    case Lt => o == Less
    case LtEq => o != Greater
  }

  function CompareTruth(op: Operator, a: Datum, b: Datum): Truth
    requires IsComparison(op)
  {
    match Compare(a, b)
    case None => Unknown
    case Some(o) => OfBool(Holds(op, o))
  }

  /** `Computed` is any expression the connector does not translate: a cast or a function call. */
  datatype Expr =
    | Column(name: string)
    | Literal(value: ScalarValue)
    | BinaryExpr(left: Expr, op: Operator, right: Expr)
    | InList(expr: Expr, list: seq<Expr>, negated: bool)
    | Between(expr: Expr, low: Expr, high: Expr, negated: bool)
    | IsNotNull(inner: Expr)
    | IsNull(inner: Expr)
    | Not(inner: Expr)
    | Like(expr: Expr, pattern: Expr, escapeChar: Option<char>, caseInsensitive: bool, negated: bool)
    | Computed(eval: Doc -> Datum)

  /** What the standard leaves to the implementation: the case classes of `ILIKE` and the reading of
      a dangling escape. */
  datatype Dialect = Dialect(fold: char -> char, dangling: DanglingRule)

  function Folding(dialect: Dialect, caseInsensitive: bool): char -> char {
    if caseInsensitive then dialect.fold else (c: char) => c
  }

  function Member(x: Datum, vs: seq<Datum>): Truth {
    if vs == [] then False else Either(CompareTruth(Eq, x, vs[0]), Member(x, vs[1..]))
  }

  ghost function LikeTruth(x: Datum, p: Datum, esc: char, fold: char -> char, rule: DanglingRule): Truth {
    if !x.Text? || !p.Text? then Unknown
    else if Dangling(p.s, esc) && rule == RejectPattern then Unknown
    else OfBool(SqlLike(p.s, esc, x.s, fold, rule))
  }

  ghost function EvalAll(es: seq<Expr>, d: Doc, dialect: Dialect): seq<Datum>
    decreases es
  {
    if es == [] then [] else [Eval(es[0], d, dialect)] + EvalAll(es[1..], d, dialect)
  }

  ghost function Eval(e: Expr, d: Doc, dialect: Dialect): Datum
    decreases e
  {
    match e
    case Column(c) => ReadColumn(d, c)
    case Literal(v) => Value(v)
    case Computed(f) => f(d)
    case BinaryExpr(l, op, r) =>
      var (x, y) := (Eval(l, d, dialect), Eval(r, d, dialect));
      (match op
       case And => OfTruth(Both(ToTruth(x), ToTruth(y)))
       case Or => OfTruth(Either(ToTruth(x), ToTruth(y)))
       case OtherOp(f) => f(x, y)
       case _ => OfTruth(CompareTruth(op, x, y)))
    case InList(x, list, negated) =>
      OfTruth(NegateIf(negated, Member(Eval(x, d, dialect), EvalAll(list, d, dialect))))
    case Between(x, lo, hi, negated) =>
      var v := Eval(x, d, dialect);
      OfTruth(NegateIf(negated, Both(CompareTruth(GtEq, v, Eval(lo, d, dialect)),
                                     CompareTruth(LtEq, v, Eval(hi, d, dialect)))))
    case IsNotNull(x) => Boolean(Eval(x, d, dialect) != Null)
    case IsNull(x) => Boolean(Eval(x, d, dialect) == Null)
    case Not(x) => OfTruth(Negate(ToTruth(Eval(x, d, dialect))))
    case Like(x, p, esc, ci, negated) =>
      var c := if esc.Some? then esc.value else '\\';
      OfTruth(NegateIf(negated, LikeTruth(Eval(x, d, dialect), Eval(p, d, dialect), c,
                                          Folding(dialect, ci), dialect.dangling)))
  }

  /** The truth value SQL gives a filter on a document. A row passes a WHERE when it is `True`. */
  ghost function TruthOf(e: Expr, d: Doc, dialect: Dialect): Truth {
    ToTruth(Eval(e, d, dialect))
  }

  lemma {:induction false} CompareTextSwaps(a: string, b: string)
    ensures CompareText(b, a) == CompareText(a, b).Swap()
  {
    if a != [] && b != [] && a[0] == b[0] {
      CompareTextSwaps(a[1..], b[1..]);
    }
  }

  lemma CompareSwaps(a: Datum, b: Datum)
    ensures Compare(b, a) == match Compare(a, b) case None => None case Some(o) => Some(o.Swap())
  {
    if a.Text? && b.Text? {
      CompareTextSwaps(a.s, b.s);
    }
  }

  lemma {:induction false} CompareTextTransitive(a: string, b: string, c: string)
    requires CompareText(a, b) == Less && CompareText(b, c) == Less
    ensures CompareText(a, c) == Less
  {
    if a != [] && a[0] == b[0] && b[0] == c[0] {
      CompareTextTransitive(a[1..], b[1..], c[1..]);
    }
  }

  lemma {:induction false} CompareTextEqual(a: string, b: string)
    ensures CompareText(a, b) == Equal <==> a == b
  {
    if a != [] && b != [] && a[0] == b[0] {
      CompareTextEqual(a[1..], b[1..]);
      assert a == [a[0]] + a[1..] && b == [b[0]] + b[1..];
    }
  }

  // ----- What the comparisons compute

  /** A shorter text that the other continues, or the smaller character at the first difference. */
  predicate DiffersAt(a: string, b: string, i: nat) {
    && i <= |a| && i < |b| && a[..i] == b[..i]
    && (i == |a| || a[i] < b[i])
  }

  ghost predicate TextBefore(a: string, b: string) {
    exists i: nat :: DiffersAt(a, b, i)
  }

  lemma {:induction false} LessTextDiffers(a: string, b: string) returns (i: nat)
    requires CompareText(a, b) == Less
    ensures DiffersAt(a, b, i)
  {
    if a == [] || a[0] != b[0] {
      i := 0;
    } else {
      i := LessTextDiffers(a[1..], b[1..]);
      i := i + 1;
      assert a[..i] == [a[0]] + a[1..][..i - 1] && b[..i] == [b[0]] + b[1..][..i - 1];
    }
  }

  lemma {:induction false} DifferingTextIsLess(a: string, b: string, i: nat)
    requires DiffersAt(a, b, i)
    ensures CompareText(a, b) == Less
  {
    if i > 0 {
      assert a[0] == a[..i][0] == b[..i][0] == b[0];
      assert a[1..][..i - 1] == a[..i][1..] && b[1..][..i - 1] == b[..i][1..];
      DifferingTextIsLess(a[1..], b[1..], i - 1);
    }
  }

  /** Text is ordered by the first character at which it differs. */
  lemma CompareTextMeans(a: string, b: string)
    ensures CompareText(a, b) == Less <==> TextBefore(a, b)
    ensures CompareText(a, b) == Equal <==> a == b
    ensures CompareText(a, b) == Greater <==> TextBefore(b, a)
  {
    CompareTextEqual(a, b);
    CompareTextSwaps(a, b);
    if CompareText(a, b) == Less {
      var i := LessTextDiffers(a, b);
    }
    if CompareText(b, a) == Less {
      var i := LessTextDiffers(b, a);
    }
    if i: nat :| DiffersAt(a, b, i) {
      DifferingTextIsLess(a, b, i);
    }
    if i: nat :| DiffersAt(b, a, i) {
      DifferingTextIsLess(b, a, i);
    }
  }

  /** `a` before `b`, on the values themselves. */
  ghost predicate Before(a: Datum, b: Datum) {
    match (a, b)
    case (Text(x), Text(y)) => TextBefore(x, y)
    case (Boolean(x), Boolean(y)) => !x && y
    case (Number(x), Number(y)) => x < y
    case (Instant(x), Instant(y)) => x < y
    case _ => false
  }

  predicate Comparable(a: Datum, b: Datum) {
    (a.Text? && b.Text?) || (a.Boolean? && b.Boolean?) || (a.Number? && b.Number?) || (a.Instant? && b.Instant?)
  }

  /** What each comparison operator says of two values, in terms of `Before` and equality. */
  lemma ComparisonMeans(op: Operator, a: Datum, b: Datum)
    requires IsComparison(op)
    ensures !Comparable(a, b) ==> CompareTruth(op, a, b) == Unknown
    ensures Comparable(a, b) ==>
              CompareTruth(op, a, b) == OfBool(match op
                                               case Eq => a == b
                                               case NotEq => a != b
                                               case Lt => Before(a, b)
                                               case LtEq => Before(a, b) || a == b
                                               case Gt => Before(b, a)
                                               case GtEq => Before(b, a) || a == b)
  {
    if a.Text? && b.Text? {
      CompareTextMeans(a.s, b.s);
    }
  }
}
