/** The token buffer and the methods that push a filter tree into it (src/graphql/query.rs). */
module QueryBuilder {
  import opened Prelude
  import opened Filters
  import opened WhereCompiler

  /** What pushing some conjuncts appends, given whether a condition was already written. */
  function Emitted(parts: seq<seq<Token>>, hasCondition: bool): seq<Token> {
    if parts == [] then [] else Sep(hasCondition) + Joined(parts, TAnd)
  }

  lemma EmitOneMore(parts: seq<seq<Token>>, part: seq<Token>, hasCondition: bool)
    ensures Emitted(parts + [part], hasCondition)
         == Emitted(parts, hasCondition) + Sep(hasCondition || parts != []) + part
  {
    var all := parts + [part];
    assert all[..|parts|] == parts && all[|parts|] == part;
    if parts != [] {
      assert Joined(all, TAnd) == Joined(parts, TAnd) + [TAnd] + part;
      Assoc(Sep(hasCondition), Joined(parts, TAnd), [TAnd]);
      Assoc(Sep(hasCondition), Joined(parts, TAnd) + [TAnd], part);
    }
  }

  /** The AND before a condition, if one was already written. */
  function Sep(hasCondition: bool): seq<Token> {
    if hasCondition then [TAnd] else []
  }

  /** Concatenation is associative. */
  lemma Assoc(a: seq<Token>, b: seq<Token>, c: seq<Token>)
    ensures a + b + c == a + (b + c)
  {
  }

  lemma Assoc4(t: seq<Token>, a: seq<Token>, b: seq<Token>, c: seq<Token>)
    ensures t + a + b + c == t + (a + b + c)
  {
    Assoc(t, a, b);
    Assoc(t, a + b, c);
  }

  lemma JoinOneMore(parts: seq<seq<Token>>, i: nat, sep: Token)
    requires i < |parts|
    ensures Joined(parts[..i + 1], sep) == Joined(parts[..i], sep) + (if i > 0 then [sep] else []) + parts[i]
  {
    assert parts[..i + 1][..i] == parts[..i];
  }

  function GroupedPart(groups: seq<Where>, op: Token): seq<seq<Token>> {
    if groups == [] then [] else [Grouped(groups, op)]
  }

  lemma EmitAppend(parts: seq<seq<Token>>, groups: seq<Where>, op: Token, hasCondition: bool)
    ensures Emitted(parts + GroupedPart(groups, op), hasCondition)
         == Emitted(parts, hasCondition) + Emitted(GroupedPart(groups, op), hasCondition || parts != [])
  {
    hide Grouped;
    if groups == [] {
      assert parts + GroupedPart(groups, op) == parts;
    } else {
      var part := Grouped(groups, op);
      EmitOneMore(parts, part, hasCondition);
      EmitOneMore([], part, hasCondition || parts != []);
      assert [] + [part] == [part];
      Assoc(Emitted(parts, hasCondition), Sep(hasCondition || parts != []), part);
    }
  }

  /** Atoms, AND groups and OR groups emitted one after the other are the group's conjuncts. */
  lemma EmitThree(w: Where, hasCondition: bool)
    ensures var atoms := AtomParts(w.atoms);
      var ands := if w.andGroups.Groups? then GroupedPart(w.andGroups.list, TAnd) else [];
      var ors := if w.orGroups.Groups? then GroupedPart(w.orGroups.list, TOr) else [];
      && Conjuncts(w) == atoms + ands + ors
      && Emitted(Conjuncts(w), hasCondition)
         == Emitted(atoms, hasCondition) + Emitted(ands, hasCondition || atoms != [])
            + Emitted(ors, hasCondition || atoms + ands != [])
  {
    var atoms := AtomParts(w.atoms);
    var ands := if w.andGroups.Groups? then w.andGroups.list else [];
    var ors := if w.orGroups.Groups? then w.orGroups.list else [];
    EmitAppend(atoms, ands, TAnd, hasCondition);
    EmitAppend(atoms + GroupedPart(ands, TAnd), ors, TOr, hasCondition);
  }

  class Builder {
    var tokens: seq<Token>

    constructor ()
      ensures tokens == []
    {
      tokens := [];
    }

    method Push(ts: seq<Token>)
      modifies this
      ensures tokens == old(tokens) + ts
    {
      tokens := tokens + ts;
    }

    method PushAnd(hasCondition: bool) returns (has: bool)
      modifies this
      ensures tokens == old(tokens) + Sep(hasCondition) && has
    {
      if hasCondition {
        Push([TAnd]);
      }
      has := true;
    }

    method PushOperand(x: Operand)
      modifies this
      ensures tokens == old(tokens) + OperandTokens(x)
    {
      Push([TBind(x.value)]);
      if x.numeric {
        Push([TCast]);
      }
    }

    method PushAtom(a: Atom)
      modifies this
      ensures tokens == old(tokens) + AtomTokens(a)
    {
      match a {
        case Cmp(c, op, x) =>
          Push([TColumn(c), TOp(op)]);
          PushOperand(x);
        case InList(c, negated, xs) =>
          PushInList(c, negated, xs);
      }
    }

    method PushInList(column: string, negated: bool, xs: seq<Operand>)
      modifies this
      ensures tokens == old(tokens) + AtomTokens(InList(column, negated, xs))
    {
      hide Joined, OperandParts, ParenthesizedList;
      ghost var sign := if negated then [TNot] else [];
      Assoc4(tokens, [TColumn(column)] + sign, [TIn], ParenthesizedList(xs));
      Assoc(tokens, [TColumn(column)], sign);
      Push([TColumn(column)]);
      if negated {
        Push([TNot]);
      }
      Push([TIn]);
      PushList(xs);
    }

    method PushList(xs: seq<Operand>)
      modifies this
      ensures tokens == old(tokens) + ParenthesizedList(xs)
    {
      hide Joined, OperandParts;
      Assoc4(tokens, [TLParen], Joined(OperandParts(xs), TComma), [TRParen]);
      Push([TLParen]);
      PushSeparated(xs);
      Push([TRParen]);
    }

    /** The comma-separated bound values. */
    method PushSeparated(xs: seq<Operand>)
      modifies this
      ensures tokens == old(tokens) + Joined(OperandParts(xs), TComma)
    {
      var i := 0;
      while i < |xs|
        invariant 0 <= i <= |xs|
        invariant tokens == old(tokens) + Joined(OperandParts(xs)[..i], TComma)
      {
        JoinOneMore(OperandParts(xs), i, TComma);
        if i > 0 {
          Push([TComma]);
        }
        PushOperand(xs[i]);
        i := i + 1;
      }
      assert OperandParts(xs)[..i] == OperandParts(xs);
    }

    method PushAtoms(atoms: seq<Atom>, hasCondition: bool) returns (has: bool)
      modifies this
      ensures tokens == old(tokens) + Emitted(AtomParts(atoms), hasCondition)
      ensures has == (hasCondition || atoms != [])
    {
      has := hasCondition;
      ghost var parts, before := AtomParts(atoms), tokens;
      assert tokens == before + Emitted(parts[..0], hasCondition);
      var i := 0;
      while i < |atoms|
        invariant 0 <= i <= |atoms|
        invariant tokens == before + Emitted(parts[..i], hasCondition)
        invariant has == (hasCondition || i > 0)
      {
        EmitOneMore(parts[..i], parts[i], hasCondition);
        Assoc4(before, Emitted(parts[..i], hasCondition), Sep(has), parts[i]);
        assert parts[..i + 1] == parts[..i] + [parts[i]];
        has := PushAnd(has);
        PushAtom(atoms[i]);
        i := i + 1;
      }
      assert parts[..i] == parts;
    }

    /** Appends the group's conjuncts, joined by AND to whatever condition stands before them. */
    method PushWhereGroup(w: Where, hasCondition: bool) returns (has: bool)
      modifies this
      ensures tokens == old(tokens) + Emitted(Conjuncts(w), hasCondition)
      ensures has == (hasCondition || Conjuncts(w) != [])
      decreases w, 1
    {
      ghost var before := tokens;
      ghost var atoms := AtomParts(w.atoms);
      ghost var ands := if w.andGroups.Groups? then GroupedPart(w.andGroups.list, TAnd) else [];
      ghost var ors := if w.orGroups.Groups? then GroupedPart(w.orGroups.list, TOr) else [];
      has := PushAtoms(w.atoms, hasCondition);
      if w.andGroups.Groups? {
        has := PushLogicalGroups(w.andGroups.list, has, TAnd);
      }
      assert tokens == before + Emitted(atoms, hasCondition) + Emitted(ands, hasCondition || atoms != []);
      if w.orGroups.Groups? {
        has := PushLogicalGroups(w.orGroups.list, has, TOr);
      }
      assert tokens == before + Emitted(atoms, hasCondition) + Emitted(ands, hasCondition || atoms != [])
                       + Emitted(ors, hasCondition || atoms + ands != []);
      EmitThree(w, hasCondition);
      Assoc4(before, Emitted(atoms, hasCondition), Emitted(ands, hasCondition || atoms != []),
             Emitted(ors, hasCondition || atoms + ands != []));
    }

    /** Appends the groups in one parenthesis, each in its own; nothing for an empty list. */
    method PushLogicalGroups(groups: seq<Where>, hasCondition: bool, op: Token) returns (has: bool)
      modifies this
      ensures tokens == old(tokens) + Emitted(GroupedPart(groups, op), hasCondition)
      ensures has == (hasCondition || groups != [])
      decreases groups, 1
    {
      has := hasCondition;
      if groups == [] {
        return;
      }
      ghost var before := tokens;
      has := PushAnd(has);
      Assoc4(tokens, [TLParen], Joined(GroupParts(groups), op), [TRParen]);
      Assoc(before, Sep(hasCondition), Grouped(groups, op));
      Push([TLParen]);
      PushGroups(groups, op);
      Push([TRParen]);
    }

    /** The groups, each in its own parenthesis, separated by the operator. */
    method PushGroups(groups: seq<Where>, op: Token)
      modifies this
      ensures tokens == old(tokens) + Joined(GroupParts(groups), op)
      decreases groups, 0
    {
      ghost var parts, before := GroupParts(groups), tokens;
      assert tokens == before + Joined(parts[..0], op);
      var first := true;
      var i := 0;
      while i < |groups|
        invariant 0 <= i <= |groups|
        invariant first == (i == 0)
        invariant tokens == before + Joined(parts[..i], op)
      {
        ghost var sep := if first then [] else [op];
        JoinOneMore(parts, i, op);
        Assoc4(before, Joined(parts[..i], op), sep, parts[i]);
        ghost var start := tokens + sep;
        if first {
          first := false;
        } else {
          Push([op]);
        }
        assert tokens == start;
        PushParenthesized(groups[i]);
        i := i + 1;
      }
      assert parts[..i] == parts;
    }

    method PushParenthesized(w: Where)
      modifies this
      ensures tokens == old(tokens) + ([TLParen] + Body(w) + [TRParen])
      decreases w, 3
    {
      Assoc4(tokens, [TLParen], Body(w), [TRParen]);
      Push([TLParen]);
      PushBody(w);
      Push([TRParen]);
    }

    /** A group on its own; TRUE if it states no condition. */
    method PushBody(w: Where)
      modifies this
      ensures tokens == old(tokens) + Body(w)
      decreases w, 2
    {
      var groupHasCondition := PushWhereGroup(w, false);
      if !groupHasCondition {
        Push([TTrue]);
      }
    }

    /** The clause in the buffer keeps exactly the rows the filter means, and is well-formed SQL
        if and only if no membership list is empty. Without a filter it is well-formed and keeps every row. */
    method PushWhere(where_: Option<Where>)
      requires tokens == []
      modifies this
      ensures tokens == Compiled(where_)
      ensures where_.None? ==>
                && ParseWhere(tokens).Some?
                && forall row, compare :: Eval(ParseWhere(tokens).value, row, compare) == Yes
      ensures where_.Some? ==> (ParseWhere(tokens).Some? <==> NonEmptyLists(where_.value))
      ensures where_.Some? && NonEmptyLists(where_.value) ==>
                forall row, compare :: Eval(ParseWhere(tokens).value, row, compare) == Yes
                                       <==> Meaning(where_.value, row, compare)
    {
      match where_ {
        case None =>
        case Some(w) =>
          Push([TWhere]);
          PushBody(w);
          CompilationPreservesMeaning(w, _ => None, (_, _, _) => false);
          forall row, compare | NonEmptyLists(w)
            ensures Eval(ParseWhere(tokens).value, row, compare) == Yes <==> Meaning(w, row, compare)
          {
            CompilationPreservesMeaning(w, row, compare);
          }
      }
    }
  }
}
