/** The WHERE compiler (src/graphql/query.rs): a filter tree is emitted into a flat token buffer with a mutable
    "a condition was already written" flag. The emitted clause, parsed, means the tree. */
module WhereCompiler {
  import opened Prelude
  import opened Filters

  // ---- The clause as a list of conjuncts ----

  function Joined(parts: seq<seq<Token>>, sep: Token): seq<Token> {
    if parts == [] then []
    else if |parts| == 1 then parts[0]
    else Joined(parts[..|parts| - 1], sep) + [sep] + parts[|parts| - 1]
  }

  function OperandTokens(x: Operand): seq<Token> {
    if x.numeric then [TBind(x.value), TCast] else [TBind(x.value)]
  }

  function OperandParts(xs: seq<Operand>): (parts: seq<seq<Token>>)
    ensures |parts| == |xs|
  {
    seq(|xs|, i requires 0 <= i < |xs| => OperandTokens(xs[i]))
  }

  function AtomTokens(a: Atom): seq<Token> {
    match a
    case Cmp(c, op, x) => [TColumn(c), TOp(op)] + OperandTokens(x)
    case InList(c, negated, xs) =>
      [TColumn(c)] + (if negated then [TNot] else []) + [TIn] + ParenthesizedList(xs)
  }

  function ParenthesizedList(xs: seq<Operand>): seq<Token> {
    [TLParen] + Joined(OperandParts(xs), TComma) + [TRParen]
  }

  function AtomParts(atoms: seq<Atom>): (parts: seq<seq<Token>>)
    ensures |parts| == |atoms|
  {
    seq(|atoms|, i requires 0 <= i < |atoms| => AtomTokens(atoms[i]))
  }

  /** What a filter group contributes: its atoms, then its AND groups in one parenthesis, then its OR groups in one. */
  function Conjuncts(w: Where): seq<seq<Token>>
    decreases w, 1
  {
    AtomParts(w.atoms)
    + (if w.andGroups.Groups? && w.andGroups.list != [] then [Grouped(w.andGroups.list, TAnd)] else [])
    + (if w.orGroups.Groups? && w.orGroups.list != [] then [Grouped(w.orGroups.list, TOr)] else [])
  }

  function Grouped(groups: seq<Where>, sep: Token): seq<Token>
    decreases groups, 1
  {
    [TLParen] + Joined(GroupParts(groups), sep) + [TRParen]
  }

  function GroupParts(groups: seq<Where>): (parts: seq<seq<Token>>)
    ensures |parts| == |groups|
    decreases groups, 0
  {
    seq(|groups|, i requires 0 <= i < |groups| => [TLParen] + Body(groups[i]) + [TRParen])
  }

  function Body(w: Where): seq<Token>
    decreases w, 2
  {
    var parts := Conjuncts(w);
    if parts == [] then [TTrue] else Joined(parts, TAnd)
  }

  function Compiled(where_: Option<Where>): seq<Token> {
    match where_
    case None => []
    case Some(w) => [TWhere] + Body(w)
  }

  // ---- The expressions the clause must parse to; None where a membership list is empty ----

  function AtomExpr(a: Atom): Option<Expr> {
    match a
    case Cmp(c, op, x) => Some(Compare(c, op, x))
    case InList(c, negated, xs) => if xs == [] then None else Some(Member(c, negated, xs))
  }

  function AtomExprs(atoms: seq<Atom>): (exprs: seq<Option<Expr>>)
    ensures |exprs| == |atoms|
  {
    seq(|atoms|, i requires 0 <= i < |atoms| => AtomExpr(atoms[i]))
  }

  /** The left-associated chain of some expressions. */
  function Chain(exprs: seq<Option<Expr>>, conjunction: bool): (e: Option<Expr>)
    requires exprs != []
  {
    var last := exprs[|exprs| - 1];
    if |exprs| == 1 then last
    else
      var left := Chain(exprs[..|exprs| - 1], conjunction);
      if left.None? || last.None? then None
      else if conjunction then Some(And(left.value, last.value))
      else Some(Or(left.value, last.value))
  }

  function ConjunctExprs(w: Where): (exprs: seq<Option<Expr>>)
    decreases w, 1
  {
    AtomExprs(w.atoms)
    + (if w.andGroups.Groups? && w.andGroups.list != [] then [Chain(GroupExprs(w.andGroups.list), true)] else [])
    + (if w.orGroups.Groups? && w.orGroups.list != [] then [Chain(GroupExprs(w.orGroups.list), false)] else [])
  }

  function GroupExprs(groups: seq<Where>): (exprs: seq<Option<Expr>>)
    ensures |exprs| == |groups|
    decreases groups, 0
  {
    seq(|groups|, i requires 0 <= i < |groups| => BodyExpr(groups[i]))
  }

  function BodyExpr(w: Where): Option<Expr>
    decreases w, 2
  {
    var exprs := ConjunctExprs(w);
    if exprs == [] then Some(True) else Chain(exprs, true)
  }

  function Expected(e: Option<Expr>, rest: seq<Token>): Parse<Expr> {
    match e
    case None => Fail
    case Some(x) => Ok(x, rest)
  }

  // ---- Parsing joined parts ----

  /** What may follow a complete condition. */
  predicate Stops(rest: seq<Token>) {
    rest == [] || rest[0] == TAnd || rest[0] == TOr || rest[0] == TRParen
  }

  lemma {:induction false} JoinedFront(parts: seq<seq<Token>>, sep: Token)
    requires |parts| >= 2
    ensures Joined(parts, sep) == parts[0] + [sep] + Joined(parts[1..], sep)
  {
    var n := |parts| - 1;
    if n > 1 {
      JoinedFront(parts[..n], sep);
      assert parts[..n][1..] == parts[1..][..n - 1];
    }
  }

  /** Tokens of the parts from the i-th on, each preceded by the separator. */
  function Remaining(parts: seq<seq<Token>>, i: nat, sep: Token): seq<Token>
    requires i <= |parts|
  {
    if i == |parts| then [] else [sep] + Joined(parts[i..], sep)
  }

  lemma {:induction false} JoinedFrom(parts: seq<seq<Token>>, i: nat, sep: Token)
    requires i < |parts|
    ensures Joined(parts[i..], sep) == parts[i] + Remaining(parts, i + 1, sep)
  {
    if i + 1 < |parts| {
      JoinedFront(parts[i..], sep);
      assert parts[i..][1..] == parts[i + 1..];
    }
  }

  lemma {:induction false} RemainingStep(parts: seq<seq<Token>>, i: nat, sep: Token, rest: seq<Token>)
    requires i < |parts|
    ensures Remaining(parts, i, sep) + rest == [sep] + (parts[i] + (Remaining(parts, i + 1, sep) + rest))
  {
    hide Joined;
    JoinedFrom(parts, i, sep);
  }

  lemma {:induction false} JoinedStep(parts: seq<seq<Token>>, sep: Token, rest: seq<Token>)
    requires parts != []
    ensures Joined(parts, sep) + rest == parts[0] + (Remaining(parts, 1, sep) + rest)
  {
    hide Joined;
    JoinedFrom(parts, 0, sep);
    assert parts[0..] == parts;
  }

  /** Each part, wherever it stands, parses as one primary. */
  ghost predicate Primaries(parts: seq<seq<Token>>, exprs: seq<Option<Expr>>) {
    && |parts| == |exprs|
    && forall i, rest :: 0 <= i < |parts| && Stops(rest) ==> ParsePrimary(parts[i] + rest) == Expected(exprs[i], rest)
  }

  lemma {:induction false} ChainPrefixFails(exprs: seq<Option<Expr>>, i: nat, conjunction: bool)
    requires i < |exprs| && exprs[i].None?
    ensures Chain(exprs, conjunction).None?
  {
    if i < |exprs| - 1 {
      ChainPrefixFails(exprs[..|exprs| - 1], i, conjunction);
    }
  }

  /** One more conjunct. */
  lemma {:induction false} AndTailStep(left: Expr, part: seq<Token>, e: Option<Expr>, after: seq<Token>)
    requires ParsePrimary(part + after) == Expected(e, after)
    ensures ParseAndTail(left, [TAnd] + (part + after))
         == if e.None? then Fail else ParseAndTail(And(left, e.value), after)
  {
    hide ParsePrimary;
    assert ([TAnd] + (part + after))[1..] == part + after;
  }

  lemma {:induction false} AndChainParses(parts: seq<seq<Token>>, exprs: seq<Option<Expr>>, i: nat, rest: seq<Token>)
    requires Primaries(parts, exprs) && 1 <= i <= |parts|
    requires Chain(exprs[..i], true).Some?
    requires Stops(rest) && (rest == [] || rest[0] != TAnd)
    ensures ParseAndTail(Chain(exprs[..i], true).value, Remaining(parts, i, TAnd) + rest)
        == Expected(Chain(exprs, true), rest)
    decreases |parts| - i
  {
    hide ParsePrimary, Joined;
    var left := Chain(exprs[..i], true).value;
    if i == |parts| {
      assert exprs[..i] == exprs;
      assert Remaining(parts, i, TAnd) + rest == rest;
    } else {
      var after := Remaining(parts, i + 1, TAnd) + rest;
      RemainingStep(parts, i, TAnd, rest);
      assert Stops(after);
      AndTailStep(left, parts[i], exprs[i], after);
      assert exprs[..i + 1][..i] == exprs[..i];
      if exprs[i].Some? {
        AndChainParses(parts, exprs, i + 1, rest);
      } else {
        ChainPrefixFails(exprs, i, true);
      }
    }
  }

  lemma {:induction false} AndListParses(parts: seq<seq<Token>>, exprs: seq<Option<Expr>>, rest: seq<Token>)
    requires Primaries(parts, exprs) && parts != []
    requires Stops(rest) && (rest == [] || rest[0] != TAnd)
    ensures ParseAnd(Joined(parts, TAnd) + rest) == Expected(Chain(exprs, true), rest)
  {
    hide Joined, ParsePrimary, ParseAndTail;
    JoinedStep(parts, TAnd, rest);
    assert Stops(Remaining(parts, 1, TAnd) + rest);
    if exprs[0].Some? {
      assert Chain(exprs[..1], true) == exprs[0];
      AndChainParses(parts, exprs, 1, rest);
    } else {
      ChainPrefixFails(exprs, 0, true);
    }
  }

  lemma {:induction false} PrimaryAsAnd(ts: seq<Token>, e: Option<Expr>, rest: seq<Token>)
    requires ParsePrimary(ts) == Expected(e, rest) && (rest == [] || rest[0] != TAnd)
    ensures ParseAnd(ts) == Expected(e, rest)
  {
  }

  lemma {:induction false} AndListAsOr(ts: seq<Token>, e: Option<Expr>, rest: seq<Token>)
    requires ParseAnd(ts) == Expected(e, rest) && (rest == [] || rest[0] != TOr)
    ensures ParseOr(ts) == Expected(e, rest)
  {
  }

  /** One more disjunct. */
  lemma {:induction false} OrTailStep(left: Expr, part: seq<Token>, e: Option<Expr>, after: seq<Token>)
    requires ParseAnd(part + after) == Expected(e, after)
    ensures ParseOrTail(left, [TOr] + (part + after))
         == if e.None? then Fail else ParseOrTail(Or(left, e.value), after)
  {
    hide ParseAnd;
    assert ([TOr] + (part + after))[1..] == part + after;
  }

  lemma {:induction false} OrChainParses(parts: seq<seq<Token>>, exprs: seq<Option<Expr>>, i: nat, rest: seq<Token>)
    requires Primaries(parts, exprs) && 1 <= i <= |parts|
    requires Chain(exprs[..i], false).Some?
    requires rest == [] || rest[0] == TRParen
    ensures ParseOrTail(Chain(exprs[..i], false).value, Remaining(parts, i, TOr) + rest)
        == Expected(Chain(exprs, false), rest)
    decreases |parts| - i
  {
    hide ParsePrimary, ParseAnd, Joined;
    var left := Chain(exprs[..i], false).value;
    if i == |parts| {
      assert exprs[..i] == exprs;
      assert Remaining(parts, i, TOr) + rest == rest;
    } else {
      var after := Remaining(parts, i + 1, TOr) + rest;
      RemainingStep(parts, i, TOr, rest);
      assert Stops(after);
      assert exprs[..i + 1][..i] == exprs[..i];
      PrimaryAsAnd(parts[i] + after, exprs[i], after);
      OrTailStep(left, parts[i], exprs[i], after);
      if exprs[i].Some? {
        OrChainParses(parts, exprs, i + 1, rest);
      } else {
        ChainPrefixFails(exprs, i, false);
      }
    }
  }

  lemma {:induction false} OrListParses(parts: seq<seq<Token>>, exprs: seq<Option<Expr>>, rest: seq<Token>)
    requires Primaries(parts, exprs) && parts != []
    requires rest == [] || rest[0] == TRParen
    ensures ParseOr(Joined(parts, TOr) + rest) == Expected(Chain(exprs, false), rest)
  {
    hide Joined, ParsePrimary, ParseAnd, ParseOrTail;
    var after := Remaining(parts, 1, TOr) + rest;
    JoinedStep(parts, TOr, rest);
    assert Stops(after);
    PrimaryAsAnd(parts[0] + after, exprs[0], after);
    if exprs[0].Some? {
      assert Chain(exprs[..1], false) == exprs[0];
      OrChainParses(parts, exprs, 1, rest);
    } else {
      ChainPrefixFails(exprs, 0, false);
    }
  }

  // ---- Atoms ----

  lemma {:induction false} OperandParses(x: Operand, rest: seq<Token>)
    requires rest == [] || rest[0] != TCast
    ensures ParseOperand(OperandTokens(x) + rest) == Ok(x, rest)
  {
    var ts := OperandTokens(x) + rest;
    assert x.numeric ==> ts[2..] == rest;
    assert !x.numeric ==> ts[1..] == rest;
  }

  lemma {:induction false} OperandsParse(xs: seq<Operand>, i: nat, rest: seq<Token>)
    requires i < |xs|
    ensures ParseOperands(xs[..i], OperandTokens(xs[i]) + (Remaining(OperandParts(xs), i + 1,
                                                                     TComma) + ([TRParen] + rest)))
         == Ok(xs, rest)
    decreases |xs| - i
  {
    hide Joined, ParseOperand;
    var parts := OperandParts(xs);
    var tail := [TRParen] + rest;
    var after := Remaining(parts, i + 1, TComma) + tail;
    OperandParses(xs[i], after);
    assert xs[..i] + [xs[i]] == xs[..i + 1];
    if i + 1 < |xs| {
      RemainingStep(parts, i + 1, TComma, tail);
      assert after[1..] == parts[i + 1] + (Remaining(parts, i + 2, TComma) + tail);
      OperandsParse(xs, i + 1, rest);
    } else {
      assert after == tail;
      assert xs[..i + 1] == xs;
    }
  }

  lemma {:induction false} AtomParses(a: Atom, rest: seq<Token>)
    requires Stops(rest)
    ensures ParsePrimary(AtomTokens(a) + rest) == Expected(AtomExpr(a), rest)
  {
    match a
    case Cmp(c, op, x) =>
      ComparisonParses(c, op, x, rest);
    case InList(c, negated, xs) =>
      InListTokens(c, negated, xs, rest);
      ParenthesizedListParses(xs, rest);
      ListParses(c, negated, ParenthesizedList(xs) + rest);
  }

  lemma {:induction false} InListTokens(column: string, negated: bool, xs: seq<Operand>, rest: seq<Token>)
    ensures AtomTokens(InList(column, negated, xs)) + rest
         == [TColumn(column)] + ((if negated then [TNot] else []) + ([TIn] + (ParenthesizedList(xs) + rest)))
  {
    var list := ParenthesizedList(xs);
    assert AtomTokens(InList(column, negated, xs)) == [TColumn(column)] + (if negated then [TNot]
                                                                           else []) + [TIn] + list;
  }

  lemma {:induction false} ComparisonParses(column: string, op: CmpOp, x: Operand, rest: seq<Token>)
    requires Stops(rest)
    ensures ParsePrimary([TColumn(column), TOp(op)] + OperandTokens(x) + rest) == Ok(Compare(column, op, x), rest)
  {
    hide ParsePrimary, ParseOperand, OperandTokens;
    OperandParses(x, rest);
    var ts := OperandTokens(x) + rest;
    assert [TColumn(column), TOp(op)] + OperandTokens(x) + rest == [TColumn(column)] + ([TOp(op)] + ts);
    ColumnParses(column, [TOp(op)] + ts);
    assert ([TOp(op)] + ts)[1..] == ts;
  }

  lemma {:induction false} ColumnParses(column: string, ts: seq<Token>)
    ensures ParsePrimary([TColumn(column)] + ts) == ParsePredicate(column, ts)
  {
    hide ParsePredicate, ParseOr;
    assert ([TColumn(column)] + ts)[1..] == ts;
  }

  lemma {:induction false} ParenthesizedListParses(xs: seq<Operand>, rest: seq<Token>)
    ensures ParenthesizedList(xs) + rest != [] && (ParenthesizedList(xs) + rest)[0] == TLParen
    ensures ParseOperands([], (ParenthesizedList(xs) + rest)[1..]) == if xs == [] then Fail else Ok(xs, rest)
  {
    hide Joined, ParseOperand;
    var inner := Joined(OperandParts(xs), TComma) + ([TRParen] + rest);
    NoOperands(rest);
    assert (ParenthesizedList(xs) + rest)[1..] == inner;
    if xs != [] {
      JoinedStep(OperandParts(xs), TComma, [TRParen] + rest);
      OperandsParse(xs, 0, rest);
      assert xs[..0] == [];
    } else {
      assert inner == [TRParen] + rest;
    }
  }

  lemma {:induction false} NoOperands(rest: seq<Token>)
    ensures Joined(OperandParts([]), TComma) == [] && ParseOperands([], [TRParen] + rest) == Fail
  {
  }

  lemma {:induction false} ListParses(column: string, negated: bool, list: seq<Token>)
    requires list != [] && list[0] == TLParen
    ensures ParsePrimary([TColumn(column)] + ((if negated then [TNot] else []) + ([TIn] + list)))
         == match ParseOperands([], list[1..])
            case Fail => Fail
            case Ok(xs, rest) => Ok(Member(column, negated, xs), rest)
  {
    hide ParsePrimary, ParsePredicate;
    var body := [TIn] + list;
    var after := (if negated then [TNot] else []) + body;
    ColumnParses(column, after);
    MembershipParses(column, negated, list);
    assert after == if negated then [TNot] + body else body;
  }

  lemma {:induction false} MembershipParses(column: string, negated: bool, list: seq<Token>)
    requires list != [] && list[0] == TLParen
    ensures ParsePredicate(column, if negated then [TNot] + ([TIn] + list) else [TIn] + list)
         == match ParseOperands([], list[1..])
            case Fail => Fail
            case Ok(xs, rest) => Ok(Member(column, negated, xs), rest)
  {
    hide ParseOperands;
    var body := [TIn] + list;
    assert body[2..] == list[1..] && ([TNot] + body)[1..] == body;
  }

  // ---- Groups ----

  lemma {:induction false} ParenthesisParses(inner: seq<Token>, e: Option<Expr>, rest: seq<Token>)
    requires ParseOr(inner + ([TRParen] + rest)) == Expected(e, [TRParen] + rest)
    ensures ParsePrimary([TLParen] + inner + [TRParen] + rest) == Expected(e, rest)
  {
    assert [TLParen] + inner + [TRParen] + rest == [TLParen] + (inner + ([TRParen] + rest));
    assert ([TRParen] + rest)[1..] == rest;
  }

  lemma {:induction false} GroupsParse(groups: seq<Where>)
    ensures Primaries(GroupParts(groups), GroupExprs(groups))
    decreases groups, 0
  {
    var parts, exprs := GroupParts(groups), GroupExprs(groups);
    forall i, rest | 0 <= i < |parts| && Stops(rest)
      ensures ParsePrimary(parts[i] + rest) == Expected(exprs[i], rest)
    {
      BodyParses(groups[i], [TRParen] + rest);
      ParenthesisParses(Body(groups[i]), BodyExpr(groups[i]), rest);
    }
  }

  lemma {:induction false} GroupedParses(groups: seq<Where>, conjunction: bool, rest: seq<Token>)
    requires groups != []
    ensures ParsePrimary(Grouped(groups, if conjunction then TAnd else TOr) + rest)
         == Expected(Chain(GroupExprs(groups), conjunction), rest)
    decreases groups, 1
  {
    var sep := if conjunction then TAnd else TOr;
    var parts, exprs, tail := GroupParts(groups), GroupExprs(groups), [TRParen] + rest;
    GroupsParse(groups);
    if conjunction {
      AndListParses(parts, exprs, tail);
      AndListAsOr(Joined(parts, sep) + tail, Chain(exprs, true), tail);
    } else {
      OrListParses(parts, exprs, tail);
    }
    ParenthesisParses(Joined(parts, sep), Chain(exprs, conjunction), rest);
  }

  lemma {:induction false} ConjunctsParse(w: Where)
    ensures Primaries(Conjuncts(w), ConjunctExprs(w))
    decreases w, 1
  {
    var parts, exprs := Conjuncts(w), ConjunctExprs(w);
    var n := |w.atoms|;
    var hasAnd := w.andGroups.Groups? && w.andGroups.list != [];
    forall i, rest | 0 <= i < |parts| && Stops(rest)
      ensures ParsePrimary(parts[i] + rest) == Expected(exprs[i], rest)
    {
      if i < n {
        AtomParses(w.atoms[i], rest);
      } else if i == n && hasAnd {
        GroupedParses(w.andGroups.list, true, rest);
      } else {
        GroupedParses(w.orGroups.list, false, rest);
      }
    }
  }

  /** The emitted condition of a group parses, under SQL precedence, to the expression built from the tree. */
  lemma {:induction false} BodyParses(w: Where, rest: seq<Token>)
    requires rest == [] || rest[0] == TRParen
    ensures ParseOr(Body(w) + rest) == Expected(BodyExpr(w), rest)
    decreases w, 2
  {
    var parts, exprs := Conjuncts(w), ConjunctExprs(w);
    ConjunctsParse(w);
    if parts == [] {
      assert ([TTrue] + rest)[1..] == rest;
      PrimaryAsAnd([TTrue] + rest, Some(True), rest);
      AndListAsOr([TTrue] + rest, Some(True), rest);
    } else {
      AndListParses(parts, exprs, rest);
      AndListAsOr(Joined(parts, TAnd) + rest, Chain(exprs, true), rest);
    }
  }

  // ---- Meaning ----

  lemma {:induction false} ChainMeaning(exprs: seq<Option<Expr>>, conjunction: bool, row: SqlRow, compare: Comparison)
    requires exprs != []
    ensures Chain(exprs, conjunction).Some? <==> forall i :: 0 <= i < |exprs| ==> exprs[i].Some?
    ensures Chain(exprs, conjunction).Some? ==>
              (Eval(Chain(exprs, conjunction).value, row, compare) == Yes
               <==> if conjunction then forall i :: 0 <= i < |exprs| ==> Eval(exprs[i].value, row, compare) == Yes
                    else exists i :: 0 <= i < |exprs| && Eval(exprs[i].value, row, compare) == Yes)
  {
    var n := |exprs| - 1;
    if n > 0 {
      ChainMeaning(exprs[..n], conjunction, row, compare);
    }
  }

  /** What one optional list of groups contributes. */
  lemma {:induction false} GroupsMeaning(groups: seq<Where>, conjunction: bool, row: SqlRow, compare: Comparison)
    requires groups != []
    ensures Chain(GroupExprs(groups), conjunction).Some? <==> forall g :: g in groups ==> NonEmptyLists(g)
    ensures Chain(GroupExprs(groups), conjunction).Some? ==>
              (Eval(Chain(GroupExprs(groups), conjunction).value, row, compare) == Yes
               <==> if conjunction then forall g :: g in groups ==> Meaning(g, row, compare)
                    else exists g :: g in groups && Meaning(g, row, compare))
    decreases groups, 0
  {
    var exprs := GroupExprs(groups);
    ChainMeaning(exprs, conjunction, row, compare);
    forall i | 0 <= i < |groups|
      ensures exprs[i].Some? <==> NonEmptyLists(groups[i])
      ensures exprs[i].Some? ==> (Eval(exprs[i].value, row, compare) == Yes <==> Meaning(groups[i], row, compare))
    {
      BodyMeaning(groups[i], row, compare);
    }
    assert forall i :: 0 <= i < |groups| ==> groups[i] in groups;
    assert forall g :: g in groups ==> exists i :: 0 <= i < |groups| && groups[i] == g && exprs[i] == BodyExpr(g);
  }

  lemma {:induction false} AtomMeaning(a: Atom, row: SqlRow, compare: Comparison)
    ensures AtomExpr(a).Some? <==> (a.InList? ==> a.operands != [])
    ensures AtomExpr(a).Some? ==> (Eval(AtomExpr(a).value, row, compare) == Yes <==> AtomHolds(a, row, compare))
  {
  }

  ghost predicate AllParse(exprs: seq<Option<Expr>>) {
    forall i :: 0 <= i < |exprs| ==> exprs[i].Some?
  }

  ghost predicate AllYes(exprs: seq<Option<Expr>>, row: SqlRow, compare: Comparison)
    requires AllParse(exprs)
  {
    forall i :: 0 <= i < |exprs| ==> Eval(exprs[i].value, row, compare) == Yes
  }

  lemma {:induction false} AllOfBoth(a: seq<Option<Expr>>, b: seq<Option<Expr>>, row: SqlRow, compare: Comparison)
    ensures AllParse(a + b) <==> AllParse(a) && AllParse(b)
    ensures AllParse(a + b) ==> (AllYes(a + b, row, compare) <==> AllYes(a, row, compare) && AllYes(b, row, compare))
  {
    hide Eval;
    var all := a + b;
    assert forall i :: 0 <= i < |a| ==> all[i] == a[i];
    assert forall i :: 0 <= i < |b| ==> all[|a| + i] == b[i];
  }

  lemma {:induction false} AtomsMeaning(atoms: seq<Atom>, row: SqlRow, compare: Comparison)
    ensures AllParse(AtomExprs(atoms)) <==> forall a :: a in atoms ==> a.InList? ==> a.operands != []
    ensures AllParse(AtomExprs(atoms)) ==>
              (AllYes(AtomExprs(atoms), row, compare) <==> forall a :: a in atoms ==> AtomHolds(a, row, compare))
  {
    hide Eval, AtomExpr, AtomHolds;
    forall i | 0 <= i < |atoms|
      ensures AtomExprs(atoms)[i].Some? <==> (atoms[i].InList? ==> atoms[i].operands != [])
      ensures AtomExprs(atoms)[i].Some? ==>
                (Eval(AtomExprs(atoms)[i].value, row, compare) == Yes <==> AtomHolds(atoms[i], row, compare))
    {
      AtomMeaning(atoms[i], row, compare);
    }
  }

  /** The conjunct of one optional list of groups, if it has any. */
  function GroupsPart(groups: Groups, conjunction: bool): seq<Option<Expr>> {
    if groups.Groups? && groups.list != [] then [Chain(GroupExprs(groups.list), conjunction)] else []
  }

  lemma {:induction false} GroupsPartMeaning(groups: Groups, conjunction: bool, row: SqlRow, compare: Comparison)
    ensures AllParse(GroupsPart(groups, conjunction))
       <==> groups.NoGroups? || forall g :: g in groups.list ==> NonEmptyLists(g)
    ensures AllParse(GroupsPart(groups, conjunction)) ==>
              (AllYes(GroupsPart(groups, conjunction), row, compare)
               <==> groups.NoGroups? || groups.list == []
                    || if conjunction then forall g :: g in groups.list ==> Meaning(g, row, compare)
                       else exists g :: g in groups.list && Meaning(g, row, compare))
    decreases groups, 0
  {
    hide Eval, Chain, GroupExprs;
    if groups.Groups? && groups.list != [] {
      GroupsMeaning(groups.list, conjunction, row, compare);
      assert GroupsPart(groups, conjunction)[0] == Chain(GroupExprs(groups.list), conjunction);
    }
  }

  lemma {:induction false} BodyMeaning(w: Where, row: SqlRow, compare: Comparison)
    ensures BodyExpr(w).Some? <==> NonEmptyLists(w)
    ensures BodyExpr(w).Some? ==> (Eval(BodyExpr(w).value, row, compare) == Yes <==> Meaning(w, row, compare))
    decreases w, 1
  {
    hide AtomHolds, AtomExprs, GroupExprs, Chain;
    var atoms, ands, ors := AtomExprs(w.atoms), GroupsPart(w.andGroups, true), GroupsPart(w.orGroups, false);
    assert ConjunctExprs(w) == atoms + ands + ors;
    AtomsMeaning(w.atoms, row, compare);
    GroupsPartMeaning(w.andGroups, true, row, compare);
    GroupsPartMeaning(w.orGroups, false, row, compare);
    AllOfBoth(atoms, ands, row, compare);
    AllOfBoth(atoms + ands, ors, row, compare);
    if ConjunctExprs(w) != [] {
      ChainMeaning(ConjunctExprs(w), true, row, compare);
    }
  }

  /** The clause emitted for a filter tree parses under SQL precedence if and only if no membership list in it is
      empty, and then it keeps a row exactly when the tree means to: three-valued truth reduces to the
      two-valued meaning. */
  lemma {:induction false} CompilationPreservesMeaning(w: Where, row: SqlRow, compare: Comparison)
    ensures ParseWhere(Compiled(Some(w))).Some? <==> NonEmptyLists(w)
    ensures NonEmptyLists(w) ==>
              (Eval(ParseWhere(Compiled(Some(w))).value, row, compare) == Yes <==> Meaning(w, row, compare))
  {
    assert ([TWhere] + Body(w))[1..] == Body(w) + [];
    BodyParses(w, []);
    BodyMeaning(w, row, compare);
  }

  /** For instance, a filter for no ids at all compiles to a clause that is not SQL. */
  lemma {:induction false} EmptyListIsNotSql()
    ensures ParseWhere(Compiled(Some(Where([InList("id", false, [])], NoGroups, NoGroups)))).None?
  {
    var w := Where([InList("id", false, [])], NoGroups, NoGroups);
    assert w.atoms[0] in w.atoms;
    CompilationPreservesMeaning(w, _ => None, (_, _, _) => false);
  }

  /** Without a filter the clause parses and keeps every row. */
  lemma NoFilterKeepsEveryRow(row: SqlRow, compare: Comparison)
    ensures ParseWhere(Compiled(None)).Some? && Eval(ParseWhere(Compiled(None)).value, row, compare) == Yes
  {
  }
}
