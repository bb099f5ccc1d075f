/** Filter trees, what they mean, and the SQL WHERE clause as tokens, a grammar and a three-valued
    evaluation (src/graphql/types.rs; PostgreSQL manual, sections 4.1.6 and 9.1). */
module Filters {
  import opened Prelude

  datatype CmpOp = Eq | NotEq | Gt | Gte | Lt | Lte

  datatype Value = Text(s: string) | Number(n: int) | Flag(b: bool)

  /** A bound parameter, cast with `::NUMERIC` or not. */
  datatype Operand = Operand(value: Value, numeric: bool)

  /** One filter field that is set: a comparison or a membership test. */
  datatype Atom =
    | Cmp(column: string, op: CmpOp, operand: Operand)
    | InList(column: string, negated: bool, operands: seq<Operand>)

  datatype Where = Where(atoms: seq<Atom>, andGroups: Groups, orGroups: Groups)

  /** An optional list of sub-filters. */
  datatype Groups = NoGroups | Groups(list: seq<Where>)

  /** A stored row: a column is NULL or has a value. */
  type SqlRow = string -> Option<Value>

  /** How two values compare; left open. */
  type Comparison = (CmpOp, Value, Operand) -> bool

  // ---- What a filter tree means ----

  predicate AtomHolds(a: Atom, row: SqlRow, compare: Comparison) {
    && row(a.column).Some?
    && match a
       case Cmp(c, op, x) => compare(op, row(c).value, x)
       case InList(c, negated, xs) => (exists i :: 0 <= i < |xs| && compare(Eq, row(c).value, xs[i])) != negated
  }

  /** All atoms hold, all AND groups hold, and some OR group holds if there are any. */
  predicate Meaning(w: Where, row: SqlRow, compare: Comparison) {
    && (forall a :: a in w.atoms ==> AtomHolds(a, row, compare))
    && (w.andGroups.NoGroups? || forall g | g in w.andGroups.list :: Meaning(g, row, compare))
    && (w.orGroups.NoGroups? || w.orGroups.list == [] || exists g | g in w.orGroups.list :: Meaning(g, row, compare))
  }

  /** No membership list anywhere in the tree is empty. */
  predicate NonEmptyLists(w: Where) {
    && (forall a :: a in w.atoms ==> a.InList? ==> a.operands != [])
    && (w.andGroups.NoGroups? || forall g | g in w.andGroups.list :: NonEmptyLists(g))
    && (w.orGroups.NoGroups? || forall g | g in w.orGroups.list :: NonEmptyLists(g))
  }

  // ---- SQL ----

  datatype Token =
    | TWhere | TTrue | TAnd | TOr | TNot | TIn | TLParen | TRParen | TComma | TCast
    | TColumn(name: string) | TOp(op: CmpOp) | TBind(value: Value)

  datatype Expr =
    | True
    | Compare(column: string, op: CmpOp, operand: Operand)
    | Member(column: string, negated: bool, operands: seq<Operand>)
    | Not(inner: Expr)
    | And(left: Expr, right: Expr)
    | Or(left: Expr, right: Expr)

  datatype Truth = Yes | No | Unknown

  function TruthOf(b: bool): Truth {
    if b then Yes else No
  }

  function Negate(t: Truth): Truth {
    match t
    case Yes => No
    case No => Yes
    case Unknown => Unknown
  }

  /** Three-valued evaluation: any test of a NULL column is unknown. */
  function Eval(e: Expr, row: SqlRow, compare: Comparison): Truth {
    match e
    case True => Yes
    case Compare(c, op, x) => if row(c).None? then Unknown else TruthOf(compare(op, row(c).value, x))
    case Member(c, negated, xs) =>
      if row(c).None? then Unknown
      else
        var found := TruthOf(exists i :: 0 <= i < |xs| && compare(Eq, row(c).value, xs[i]));
        if negated then Negate(found) else found
    case Not(x) => Negate(Eval(x, row, compare))
    case And(a, b) =>
      var l, r := Eval(a, row, compare), Eval(b, row, compare);
      if l == No || r == No then No else if l == Yes && r == Yes then Yes else Unknown
    case Or(a, b) =>
      var l, r := Eval(a, row, compare), Eval(b, row, compare);
      if l == Yes || r == Yes then Yes else if l == No && r == No then No else Unknown
  }

  // ---- The grammar: comparisons and IN bind tightest, then NOT, then AND, then OR ----

  datatype Parse<T> = Fail | Ok(value: T, rest: seq<Token>)

  function ParseOperand(ts: seq<Token>): (r: Parse<Operand>)
    ensures r.Ok? ==> |r.rest| < |ts|
  {
    if ts == [] || !ts[0].TBind? then Fail
    else if |ts| >= 2 && ts[1] == TCast then Ok(Operand(ts[0].value, true), ts[2..])
    else Ok(Operand(ts[0].value, false), ts[1..])
  }

  /** Operands separated by commas up to the closing parenthesis; at least one. */
  function ParseOperands(done: seq<Operand>, ts: seq<Token>): (r: Parse<seq<Operand>>)
    ensures r.Ok? ==> |r.rest| < |ts|
    decreases |ts|
  {
    match ParseOperand(ts)
    case Fail => Fail
    case Ok(x, rest) =>
      if rest == [] then Fail
      else if rest[0] == TComma then ParseOperands(done + [x], rest[1..])
      else if rest[0] == TRParen then Ok(done + [x], rest[1..])
      else Fail
  }

  function ParsePredicate(column: string, ts: seq<Token>): (r: Parse<Expr>)
    ensures r.Ok? ==> |r.rest| < |ts|
  {
    if ts == [] then Fail
    else if ts[0].TOp? then
      match ParseOperand(ts[1..])
      case Fail => Fail
      case Ok(x, rest) => Ok(Compare(column, ts[0].op, x), rest)
    else
      var negated := ts[0] == TNot;
      var list := if negated then ts[1..] else ts;
      if |list| >= 2 && list[0] == TIn && list[1] == TLParen then
        match ParseOperands([], list[2..])
        case Fail => Fail
        case Ok(xs, rest) => Ok(Member(column, negated, xs), rest)
      else Fail
  }

  function ParsePrimary(ts: seq<Token>): (r: Parse<Expr>)
    ensures r.Ok? ==> |r.rest| < |ts|
    decreases |ts|, 0
  {
    if ts == [] then Fail
    else match ts[0]
      case TTrue => Ok(True, ts[1..])
      case TColumn(c) => ParsePredicate(c, ts[1..])
      case TNot =>
        (match ParsePrimary(ts[1..])
         case Fail => Fail
         case Ok(e, rest) => Ok(Not(e), rest))
      case TLParen =>
        (match ParseOr(ts[1..])
         case Fail => Fail
         case Ok(e, rest) => if rest != [] && rest[0] == TRParen then Ok(e, rest[1..]) else Fail)
      case _ => Fail
  }

  function ParseAnd(ts: seq<Token>): (r: Parse<Expr>)
    ensures r.Ok? ==> |r.rest| < |ts|
    decreases |ts|, 1
  {
    match ParsePrimary(ts)
    case Fail => Fail
    case Ok(e, rest) => ParseAndTail(e, rest)
  }

  function ParseAndTail(left: Expr, ts: seq<Token>): (r: Parse<Expr>)
    ensures r.Ok? ==> |r.rest| <= |ts|
    decreases |ts|, 1
  {
    if ts != [] && ts[0] == TAnd then
      match ParsePrimary(ts[1..])
      case Fail => Fail
      case Ok(e, rest) => ParseAndTail(And(left, e), rest)
    else Ok(left, ts)
  }

  function ParseOr(ts: seq<Token>): (r: Parse<Expr>)
    ensures r.Ok? ==> |r.rest| < |ts|
    decreases |ts|, 2
  {
    match ParseAnd(ts)
    case Fail => Fail
    case Ok(e, rest) => ParseOrTail(e, rest)
  }

  function ParseOrTail(left: Expr, ts: seq<Token>): (r: Parse<Expr>)
    ensures r.Ok? ==> |r.rest| <= |ts|
    decreases |ts|, 2
  {
    if ts != [] && ts[0] == TOr then
      match ParseAnd(ts[1..])
      case Fail => Fail
      case Ok(e, rest) => ParseOrTail(Or(left, e), rest)
    else Ok(left, ts)
  }

  /** The whole clause; no clause at all keeps every row. */
  function ParseWhere(ts: seq<Token>): Option<Expr> {
    if ts == [] then Some(True)
    else if ts[0] != TWhere then None
    else
      match ParseOr(ts[1..])
      case Fail => None
      case Ok(e, rest) => if rest == [] then Some(e) else None
  }
}
