/** The target language: the fragment of the OpenSearch query DSL the connector emits, and which
    documents each clause matches. Every clause either matches a document or does not. */
module QueryDsl {
  import opened Prelude
  import opened LikePatterns
  import opened Sql

  /** A literal inside a clause. */
  datatype Json = JStr(s: string) | JBool(b: bool) | JNum(r: real)

  /** `Should` carries `minimum_should_match: 1`. `Opaque` is a caller-supplied clause of any kind. */
  datatype Query =
    | MatchAll
    | Term(field: string, value: Json)
    | Terms(field: string, values: seq<Json>)
    | Range(field: string, gt: Option<Json>, gte: Option<Json>, lt: Option<Json>, lte: Option<Json>)
    | Exists(field: string)
    | Prefix(field: string, text: string, caseInsensitive: bool)
    | Wildcard(field: string, text: string, caseInsensitive: bool)
    | MustNot(clause: Query)
    | Filter(clauses: seq<Query>)
    | Should(clauses: seq<Query>)
    | Opaque(holds: Doc -> bool)

  /** A stored value against a clause literal: a number is read by a date field as milliseconds
      since the epoch. */
  function CompareStored(x: Scalar, j: Json): Option<Order> {
    match (x, j)
    case (Str(s), JStr(t)) => Some(CompareText(s, t))
    case (Bool(a), JBool(b)) => Some(CompareBool(a, b))
    case (Num(a), JNum(b)) => Some(CompareReal(a, b))
    case (Date(m), JNum(b)) => Some(CompareReal(m as real, b))
    case _ => None
  }

  predicate Within(op: Operator, x: Scalar, bound: Option<Json>)
    requires IsComparison(op)
  {
    bound.Some? ==>
      var o := CompareStored(x, bound.value);
      o.Some? && Holds(op, o.value)
  }

  predicate Matches(q: Query, d: Doc, dialect: Dialect) {
    match q
    case MatchAll => true
    case Term(f, v) => f in d && CompareStored(d[f], v) == Some(Equal)
    case Terms(f, vs) => f in d && exists i :: 0 <= i < |vs| && CompareStored(d[f], vs[i]) == Some(Equal)
    case Range(f, gt, gte, lt, lte) =>
      f in d && Within(Gt, d[f], gt) && Within(GtEq, d[f], gte) && Within(Lt, d[f], lt) && Within(LtEq, d[f], lte)
    case Exists(f) => f in d
    case Prefix(f, v, ci) =>
      f in d && d[f].Str? && ClauseMatches(PrefixValue(v), d[f].s, Folding(dialect, ci))
    case Wildcard(f, v, ci) =>
      f in d && d[f].Str? && ClauseMatches(WildcardValue(v), d[f].s, Folding(dialect, ci))
    case MustNot(c) => !Matches(c, d, dialect)
    case Filter(cs) => forall i :: 0 <= i < |cs| ==> Matches(cs[i], d, dialect)
    case Should(cs) => exists i :: 0 <= i < |cs| && Matches(cs[i], d, dialect)
    case Opaque(p) => p(d)
  }
}
