/** The recursive-descent parser for expressions, a position moving over the list of tokens. */
module ExpressionParser {
  import opened Options
  import opened Expressions

  ghost function AfterFirst(k: nat, p: Parse<Expr>): Parse<Expr>
    requires k < TERM
  {
    match p
    case Failure => Failure
    case Success(e, rest) => Loop(k, e, rest)
  }

  /** The first operand of a left-associative level, and what the level makes of it. */
  lemma LeftFirst(k: nat, ts: Tokens)
    requires k in {OR, AND, ADD, MUL}
    ensures ParseLevel(k, ts) == AfterFirst(k, ParseLevel(k + 1, ts))
  {
  }

  /** The loop goes on exactly while an operator of the level comes next. */
  lemma LoopStep(k: nat, left: Expr, ts: Tokens)
    requires k in {OR, AND, ADD, MUL}
    ensures Loop(k, left, ts)
         == if AtOp(k, ts) then AfterRight(k, left, Lower(ts[0].value), ParseLevel(k + 1, ts[1..])) else Success(left, ts)
  {
    hide ParseLevel;
  }

  ghost function AfterRight(k: nat, left: Expr, op: string, right: Parse<Expr>): Parse<Expr>
    requires k < TERM
  {
    match right
    case Failure => Failure
    case Success(e, rest) => Loop(k, Binary(left, op, e), rest)
  }

  ghost function Item(starred: bool, ts: Tokens): Parse<Expr> {
    if starred && ts != [] && ts[0].kind == Star then Success(Column(None, "*"), ts[1..]) else ParseLevel(OR, ts)
  }

  ghost function AfterItem(starred: bool, p: Parse<Expr>): Parse<seq<Expr>> {
    match p
    case Failure => Failure
    case Success(e, rest) =>
      if Is(rest, ",") then Before([e], Items(starred, rest[1..]))
      else if Is(rest, ")") then Success([e], rest[1..])
      else Failure
  }

  /** The first item of a list, and the rest of the list. */
  lemma ItemsFirst(starred: bool, ts: Tokens)
    ensures Items(starred, ts) == AfterItem(starred, Item(starred, ts))
  {
  }

  /** The items read so far, and then those of `p`. */
  ghost function Before(items: seq<Expr>, p: Parse<seq<Expr>>): Parse<seq<Expr>> {
    match p
    case Failure => Failure
    case Success(es, rest) => Success(items + es, rest)
  }

  lemma BeforeOne(items: seq<Expr>, e: Expr, p: Parse<seq<Expr>>)
    ensures Before(items, Before([e], p)) == Before(items + [e], p)
    ensures Before([], p) == p
  {
    if p.Success? {
      assert items + ([e] + p.value) == items + [e] + p.value;
      assert [] + p.value == p.value;
    }
  }

  class Parser {
    const tokens: Tokens
    var pos: nat

    constructor (tokens: Tokens)
      ensures this.tokens == tokens && pos == 0
    {
      this.tokens, pos := tokens, 0;
    }

    ghost predicate Valid()
      reads this
    {
      pos <= |tokens|
    }

    /** The tokens not yet consumed; the end-of-file token that closes the list is left out of them. */
    ghost function Ahead(): Tokens
      requires Valid()
      reads this
    {
      tokens[pos..]
    }

    /** A result, or none for a parse error, is what `spec` says, and so is the position it leaves. */
    ghost predicate Agrees<T(!new)>(spec: Parse<T>, r: Option<T>)
      reads this
    {
      match spec
      case Failure => r == None
      case Success(e, rest) => r == Some(e) && Valid() && Ahead() == rest
    }

    /** Consumes the next token if it is spelled like the word. */
    method Match(word: string) returns (r: bool)
      requires Valid()
      modifies this
      ensures Valid() && r == Is(old(Ahead()), word)
      ensures Ahead() == if r then old(Ahead())[1..] else old(Ahead())
      ensures pos == old(pos) + if r then 1 else 0
    {
      if pos == |tokens| || Lower(tokens[pos].value) != word {
        return false;
      }
      pos := pos + 1;
      r := true;
    }

    /** Consumes the next token if it is an operator of the level. */
    method MatchOp(k: nat) returns (op: Option<string>)
      requires Valid()
      modifies this
      ensures Valid() && op.Some? == AtOp(k, old(Ahead())) && (op.Some? ==> old(Ahead()) != [])
      ensures op.Some? ==> op.value == Lower(old(Ahead())[0].value) && pos == old(pos) + 1 && Ahead() == old(Ahead())[1..]
      ensures op.None? ==> pos == old(pos)
    {
      var ops := Ops(k);
      for i := 0 to |ops|
        invariant pos == old(pos) && !(AtOp(k, Ahead()) && Lower(Ahead()[0].value) in ops[..i])
      {
        assert ops[..i + 1] == ops[..i] + [ops[i]];
        var here := Match(ops[i]);
        if here {
          return Some(ops[i]);
        }
      }
      assert ops[..|ops|] == ops;
      op := None;
    }

    method ParseExpression() returns (r: Option<Expr>)
      requires Valid()
      modifies this
      ensures Agrees(ParseLevel(OR, old(Ahead())), r)
      decreases |tokens| - pos, 20
    {
      r := ParseLeft(OR);
    }

    /** The levels whose operators associate to the left: or, and, + and -, * and /. */
    method ParseLeft(k: nat) returns (r: Option<Expr>)
      requires Valid() && k in {OR, AND, ADD, MUL}
      modifies this
      ensures Agrees(ParseLevel(k, old(Ahead())), r)
      decreases |tokens| - pos, 16 - 2 * k
    {
      hide ParseLevel, Lower, Loop, AtOp;
      ghost var start := Ahead();
      r := ParseTighter(k);
      LeftFirst(k, start);
      if r.None? {
        return;
      }
      var left := r.value;
      ghost var at := Ahead();
      var op := MatchOp(k);
      LoopStep(k, left, at);
      while op.Some?
        invariant Valid() && pos > old(pos)
        invariant op.Some? ==> at != [] && AtOp(k, at) && op.value == Lower(at[0].value) && Ahead() == at[1..]
        invariant op.Some? ==> ParseLevel(k, start) == Loop(k, left, at)
        invariant op.None? ==> ParseLevel(k, start) == Success(left, Ahead())
        decreases |tokens| - pos, if op.Some? then 1 else 0
      {
        LoopStep(k, left, at);
        var right := ParseTighter(k);
        if right.None? {
          return None;
        }
        left, at := Binary(left, op.value, right.value), Ahead();
        op := MatchOp(k);
        LoopStep(k, left, at);
      }
      r := Some(left);
    }

    /** The operands of a level. */
    method ParseTighter(k: nat) returns (r: Option<Expr>)
      requires Valid() && k in {OR, AND, ADD, MUL}
      modifies this
      ensures Agrees(ParseLevel(k + 1, old(Ahead())), r)
      ensures r.Some? ==> pos > old(pos)
      decreases |tokens| - pos, 15 - 2 * k
    {
      if k == OR { r := ParseLeft(AND); }
      else if k == AND { r := ParseNot(); }
      else if k == ADD { r := ParseLeft(MUL); }
      else { r := ParseTerm(); }
    }

    method ParseNot() returns (r: Option<Expr>)
      requires Valid()
      modifies this
      ensures Agrees(ParseLevel(NOT, old(Ahead())), r)
      decreases |tokens| - pos, 12
    {
      var not := Match("not");
      r := ParseComparison();
      if r.Some? {
        assert Loop(NOT, r.value, Ahead()) == Success(r.value, Ahead());
        if not {
          r := Some(Not(r.value));
        }
      }
    }

    method ParseComparison() returns (r: Option<Expr>)
      requires Valid()
      modifies this
      ensures Agrees(ParseLevel(COMPARE, old(Ahead())), r)
      decreases |tokens| - pos, 11
    {
      r := ParseLeft(ADD);
      if r.None? {
        return;
      }
      r := CompareWith(r.value);
    }

    /** What may follow the left operand of a comparison. */
    method CompareWith(left: Expr) returns (r: Option<Expr>)
      requires Valid()
      modifies this
      ensures Agrees(Comparison(left, old(Ahead())), r)
      decreases |tokens| - pos, 10
    {
      hide ParseLevel, Items;
      var here := Match("is");
      if here {
        r := AfterIs(left);
        return;
      }
      here := Match("between");
      if here {
        r := AfterBetween(left);
        return;
      }
      here := Match("in");
      if here {
        r := AfterIn(left);
        return;
      }
      here := Match("like");
      if here {
        var pattern := ParseLeft(ADD);
        if pattern.None? {
          return None;
        }
        return Some(Like(left, pattern.value));
      }
      r := AfterOperator(left);
    }

    method AfterOperator(left: Expr) returns (r: Option<Expr>)
      requires Valid() && !Is(Ahead(), "is") && !Is(Ahead(), "between") && !Is(Ahead(), "in") && !Is(Ahead(), "like")
      modifies this
      ensures Agrees(Comparison(left, old(Ahead())), r)
      decreases |tokens| - pos, 9
    {
      hide ParseLevel, Items;
      var here;
      for i := 0 to |COMPARISONS|
        invariant pos == old(pos) && (Ahead() != [] ==> Lower(Ahead()[0].value) !in COMPARISONS[..i])
      {
        assert COMPARISONS[..i + 1] == COMPARISONS[..i] + [COMPARISONS[i]];
        here := Match(COMPARISONS[i]);
        if here {
          var right := ParseLeft(ADD);
          if right.None? {
            return None;
          }
          return Some(Binary(left, COMPARISONS[i], right.value));
        }
      }
      assert COMPARISONS[..|COMPARISONS|] == COMPARISONS;
      r := Some(left);
    }

    method AfterIs(left: Expr) returns (r: Option<Expr>)
      requires Valid() && pos >= 1 && Is(tokens[pos - 1..], "is")
      modifies this
      ensures Agrees(Comparison(left, tokens[old(pos) - 1..]), r)
    {
      hide ParseLevel, Items;
      assert tokens[pos - 1..][1..] == Ahead();
      assert Ahead() != [] ==> tokens[pos - 1..][2..] == Ahead()[1..];
      var negated := Match("not");
      var nullWord := Match("null");
      r := if nullWord then Some(IsNull(left, negated)) else None;
    }

    method AfterBetween(left: Expr) returns (r: Option<Expr>)
      requires Valid() && pos >= 1 && Is(tokens[pos - 1..], "between")
      modifies this
      ensures Agrees(Comparison(left, tokens[old(pos) - 1..]), r)
      decreases |tokens| - pos, 9
    {
      hide ParseLevel, Items;
      assert tokens[pos - 1..][1..] == Ahead();
      var lower := ParseLeft(ADD);
      if lower.None? {
        return None;
      }
      var and := Match("and");
      if !and {
        return None;
      }
      var upper := ParseLeft(ADD);
      r := if upper.Some? then Some(Between(left, lower.value, upper.value)) else None;
    }

    method AfterIn(left: Expr) returns (r: Option<Expr>)
      requires Valid() && pos >= 1 && Is(tokens[pos - 1..], "in")
      modifies this
      ensures Agrees(Comparison(left, tokens[old(pos) - 1..]), r)
      decreases |tokens| - pos, 9
    {
      hide ParseLevel, Items;
      ghost var start := tokens[pos - 1..];
      assert start[1..] == Ahead();
      var open := Match("(");
      if !open {
        return None;
      }
      assert start[2..] == Ahead();
      var values := ParseItems(false);
      r := if values.Some? then Some(In(left, values.value)) else None;
    }

    /** One item of a list: a star where one is allowed, or an expression. */
    method ParseItem(starred: bool) returns (r: Option<Expr>)
      requires Valid()
      modifies this
      ensures Agrees(Item(starred, old(Ahead())), r)
      ensures r.Some? ==> pos > old(pos)
      decreases |tokens| - pos, 21
    {
      hide ParseLevel;
      if starred && pos < |tokens| && tokens[pos].kind == Star {
        pos := pos + 1;
        return Some(Column(None, "*"));
      }
      r := ParseExpression();
    }

    /** A list, possibly empty, up to its closing parenthesis. */
    method ParseItems(starred: bool) returns (r: Option<seq<Expr>>)
      requires Valid()
      modifies this
      ensures Agrees(if Is(old(Ahead()), ")") then Success([], old(Ahead())[1..]) else Items(starred, old(Ahead())), r)
      decreases |tokens| - pos, 22
    {
      hide ParseLevel, Items, Lower, Comparison, Term, Loop;
      var close := Match(")");
      if close {
        return Some([]);
      }
      var items: seq<Expr> := [];
      var more := true;
      ghost var start := Ahead();
      ghost var from := start;
      BeforeOne([], Column(None, ""), Items(starred, from));
      while more
        invariant Valid() && pos >= old(pos) && (more ==> from == Ahead())
        invariant more ==> Items(starred, start) == Before(items, Items(starred, from))
        invariant !more ==>
                    Items(starred, start) == if Is(Ahead(), ")") then Success(items, Ahead()[1..]) else Failure
        decreases |tokens| - pos, if more then 1 else 0
      {
        ItemsFirst(starred, Ahead());
        var item := ParseItem(starred);
        if item.None? {
          return None;
        }
        more := Match(",");
        if more { BeforeOne(items, item.value, Items(starred, Ahead())); }
        items := items + [item.value];
        from := Ahead();
      }
      close := Match(")");
      r := if close then Some(items) else None;
    }

    method ParseTerm() returns (r: Option<Expr>)
      requires Valid()
      modifies this
      ensures Agrees(ParseLevel(TERM, old(Ahead())), r)
      decreases |tokens| - pos, 2
    {
      hide Items, Comparison, Loop;
      if pos == |tokens| {
        return None;
      }
      ghost var start := Ahead();
      var t := tokens[pos];
      if IsName(t.kind) && pos + 1 < |tokens| && tokens[pos + 1].kind == LParen {
        pos := pos + 1;
        assert start[1..] == Ahead();
        var open := Match("(");
        if !open {
          return None;
        }
        assert start[2..] == Ahead();
        var args := ParseItems(true);
        return if args.Some? then Some(Function(Lower(t.value), args.value)) else None;
      }
      if IsName(t.kind) {
        pos := pos + 1;
        assert start[1..] == Ahead();
        if pos < |tokens| && tokens[pos].kind == Dot {
          pos := pos + 1;
          if pos == |tokens| || tokens[pos].kind != Identifier {
            return None;
          }
          pos := pos + 1;
          assert start[3..] == Ahead();
          return Some(Column(Some(Lower(t.value)), Lower(tokens[pos - 1].value)));
        }
        return Some(Column(None, Lower(t.value)));
      }
      if IsLiteral(t.kind) {
        pos := pos + 1;
        return Some(Literal(t.kind, t.value));
      }
      if t.kind == LParen {
        pos := pos + 1;
        assert start[1..] == Ahead();
        r := ParseExpression();
        if r.Some? {
          var close := Match(")");
          if !close {
            return None;
          }
        }
        return;
      }
      r := None;
    }
  }
}
