/** Parsing what was printed gives the expression back. */
module ExpressionRoundTrip {
  import opened Options
  import opened Expressions

  const WORDS := ["or", "and", "not", "is", "null", "between", "in", "like", "(", ")", ",",
                  "+", "-", "*", "/", "!=", ">=", "<=", "=", ">", "<"]

  lemma LowerIs(w: string)
    requires forall i | 0 <= i < |w| :: !('A' <= w[i] <= 'Z')
    ensures Lower(w) == w
  {
  }

  lemma Words()
    ensures forall w | w in WORDS :: Lower(w) == w
  {
    forall w | w in WORDS ensures Lower(w) == w { LowerIs(w); }
  }

  // --- What may follow ------------------------------------------------------------------------------------------

  predicate StartsComparison(w: string) {
    w in COMPARISONS || w in ["is", "between", "in", "like"]
  }

  /** A token spelled `w` is no operator of a level tighter than `k`. */
  predicate Stops(k: nat, w: string) {
    && (k < AND ==> w != "and")
    && (k <= COMPARE ==> !StartsComparison(w) && w != "+" && w != "-")
    && (k < MUL ==> w != "*" && w != "/")
  }

  /** What follows an expression at level `k` and is not taken into its operands. */
  predicate Ends(k: nat, ts: Tokens) {
    ts == [] || (ts[0].kind != Dot && ts[0].kind != LParen && Stops(k, Lower(ts[0].value)))
  }

  /** What the level makes of an operand and the tokens after it. */
  function Continue(k: nat, e: Expr, rest: Tokens): Parse<Expr>
    requires k <= TERM
  {
    if k == COMPARE || k == TERM then Success(e, rest) else Loop(k, e, rest)
  }

  lemma NoOperator(k: nat, j: nat, e: Expr, rest: Tokens)
    requires k < j <= TERM && Ends(k, rest)
    ensures Continue(j, e, rest) == Success(e, rest)
  {
  }

  lemma NoComparison(k: nat, e: Expr, rest: Tokens)
    requires k <= COMPARE && Ends(k, rest)
    ensures Comparison(e, rest) == Success(e, rest)
  {
  }

  /** An expression read at level `j` is also what a looser level `k` reads. */
  lemma {:induction false} Lift(k: nat, j: nat, ts: Tokens, e: Expr, rest: Tokens)
    requires k <= j <= TERM && Ends(k, rest)
    requires ParseLevel(j, ts) == Continue(j, e, rest)
    requires k <= NOT < j ==> !Is(ts, "not")
    ensures ParseLevel(k, ts) == Continue(k, e, rest)
    decreases j
  {
    if k < j {
      NoOperator(k, j, e, rest);
      if j - 1 == COMPARE { NoComparison(k, e, rest); }
      hide Comparison, Loop, Ends, Term;
      assert ParseLevel(j - 1, ts) == Continue(j - 1, e, rest);
      Lift(k, j - 1, ts, e, rest);
    }
  }

  // --- How a printed expression begins -------------------------------------------------------------------------------

  ghost predicate Begins(ts: Tokens) {
    ts != [] && ts[0].kind != Star
  }

  lemma {:induction false} BodyBegins(e: Expr)
    requires PrintableBody(e)
    ensures Begins(Body(e))
    decreases e, 0
  {
    Words();
    match e
    case Binary(left, op, right) =>
      var k := if LevelOf(e) == COMPARE then ADD else LevelOf(e);
      PrintBegins(left, k);
      assert Body(e)[0] == Print(left, k)[0];
    case IsNull(value, negated) =>
      PrintBegins(value, ADD);
      assert Body(e)[0] == Print(value, ADD)[0];
    case Between(value, lower, upper) =>
      PrintBegins(value, ADD);
      assert Body(e)[0] == Print(value, ADD)[0];
    case In(value, values) =>
      PrintBegins(value, ADD);
      assert Body(e)[0] == Print(value, ADD)[0];
    case Like(value, pattern) =>
      PrintBegins(value, ADD);
      assert Body(e)[0] == Print(value, ADD)[0];
    case _ =>
  }

  lemma PrintBegins(e: Expr, k: nat)
    requires PrintableBody(e)
    ensures Begins(Print(e, k))
    decreases e, 1
  {
    Words();
    BodyBegins(e);
    if LevelOf(e) < k {
      assert Print(e, k)[0] == OPEN;
    }
  }

  // --- Reading back ------------------------------------------------------------------------------------------------------

  /** What is printed for level `k` is read back at level `k`, whatever follows that does not belong to it. */
  lemma {:induction false} Reads(e: Expr, k: nat, rest: Tokens)
    requires Printable(e, k) && k <= TERM && Ends(k, rest)
    ensures ParseLevel(k, Print(e, k) + rest) == Continue(k, e, rest)
    decreases e, 3
  {
    hide ParseLevel, Loop, Comparison, PrintableBody, Body;
    BodyBegins(e);
    PrintBegins(e, k);
    if LevelOf(e) >= k {
      LooserEnds(k, LevelOf(e), rest);
      ReadsBody(e, rest);
      assert (Body(e) + rest)[0] == Body(e)[0];
      Lift(k, LevelOf(e), Body(e) + rest, e, rest);
    } else {
      var inner := Body(e) + ([CLOSE] + rest);
      CloseEnds(rest);
      ReadsBody(e, [CLOSE] + rest);
      assert inner[0] == Body(e)[0];
      Lift(OR, LevelOf(e), inner, e, [CLOSE] + rest);
      NoOperator0(e, [CLOSE] + rest);
      ReadsParens(e, inner, rest);
      assert [OPEN] + inner == Print(e, k) + rest;
      Words();
      Lift(k, TERM, [OPEN] + inner, e, rest);
    }
  }

  lemma LooserEnds(k: nat, j: nat, rest: Tokens)
    requires k <= j && Ends(k, rest)
    ensures Ends(j, rest)
  {
  }

  lemma CloseEnds(rest: Tokens)
    ensures forall k: nat :: Ends(k, [CLOSE] + rest)
    ensures Is([CLOSE] + rest, ")") && !AtOp(OR, [CLOSE] + rest)
  {
    Words();
  }

  lemma NoOperator0(e: Expr, rest: Tokens)
    requires !AtOp(OR, rest)
    ensures Continue(OR, e, rest) == Success(e, rest)
  {
  }

  lemma ReadsParens(e: Expr, inner: Tokens, rest: Tokens)
    requires ParseLevel(OR, inner) == Success(e, [CLOSE] + rest)
    ensures ParseLevel(TERM, [OPEN] + inner) == Success(e, rest)
  {
    hide Comparison, Loop;
    CloseEnds(rest);
    assert ([OPEN] + inner)[1..] == inner;
    assert ([CLOSE] + rest)[1..] == rest;
  }

  lemma {:induction false} ReadsBody(e: Expr, rest: Tokens)
    requires PrintableBody(e) && Ends(LevelOf(e), rest)
    ensures ParseLevel(LevelOf(e), Body(e) + rest) == Continue(LevelOf(e), e, rest)
    decreases e, 2
  {
    match e
    case Literal(_, _) => ReadsLiteral(e, rest);
    case Column(_, _) => ReadsColumn(e, rest);
    case Function(_, _) => ReadsFunction(e, rest);
    case Binary(_, _, _) => if LevelOf(e) == COMPARE { ReadsCompare(e, rest); } else { ReadsBinary(e, rest); }
    case Not(_) => ReadsNot(e, rest);
    case IsNull(_, _) => ReadsIsNull(e, rest);
    case Between(_, _, _) => ReadsBetween(e, rest);
    case In(_, _) => ReadsIn(e, rest);
    case Like(_, _) => ReadsLike(e, rest);
  }

  lemma ReadsLiteral(e: Expr, rest: Tokens)
    requires PrintableBody(e) && e.Literal?
    ensures ParseLevel(TERM, Body(e) + rest) == Success(e, rest)
  {
    assert (Body(e) + rest)[1..] == rest;
  }

  lemma ReadsColumn(e: Expr, rest: Tokens)
    requires PrintableBody(e) && e.Column? && Ends(TERM, rest)
    ensures ParseLevel(TERM, Body(e) + rest) == Success(e, rest)
  {
    var ts := Body(e) + rest;
    if e.table.None? {
      assert ts[1..] == rest;
    } else {
      assert ts[3..] == rest;
    }
  }

  /** A left-associative operator: its left operand is read first, then the operator and its right operand. */
  lemma ReadsBinary(e: Expr, rest: Tokens)
    requires PrintableBody(e) && e.Binary? && LevelOf(e) != COMPARE && Ends(LevelOf(e), rest)
    ensures ParseLevel(LevelOf(e), Body(e) + rest) == Continue(LevelOf(e), e, rest)
    decreases e, 0
  {
    var k, op := LevelOf(e), e.op;
    var tail := Print(e.right, k + 1) + rest;
    OperatorEnds(e, tail);
    hide ParseLevel, Comparison, Print, Body;
    Reads(e.left, k, [Word(op)] + tail);
    LooserEnds(k, k + 1, rest);
    Reads(e.right, k + 1, rest);
    NoOperator(k, k + 1, e.right, rest);
    assert ([Word(op)] + tail)[1..] == tail;
    assert Continue(k, e.left, [Word(op)] + tail) == Loop(k, e, rest);
    BinaryBody(e, rest);
  }

  lemma BinaryBody(e: Expr, rest: Tokens)
    requires e.Binary? && LevelOf(e) != COMPARE
    ensures Body(e) + rest == Print(e.left, LevelOf(e)) + ([Word(e.op)] + (Print(e.right, LevelOf(e) + 1) + rest))
  {
  }

  lemma OperatorEnds(e: Expr, tail: Tokens)
    requires PrintableBody(e) && e.Binary? && LevelOf(e) != COMPARE
    ensures Ends(LevelOf(e), [Word(e.op)] + tail) && AtOp(LevelOf(e), [Word(e.op)] + tail)
    ensures Lower(Word(e.op).value) == e.op && LevelOf(e) in {OR, AND, ADD, MUL}
  {
    Words();
    assert e.op in WORDS;
  }

  /** The first operand of everything at the comparison level. */
  lemma ReadsOperand(e: Expr, w: Token, tail: Tokens)
    requires Printable(e, ADD) && Lower(w.value) == w.value && (StartsComparison(w.value) || w.value == "and")
    requires w.kind != Dot && w.kind != LParen
    ensures ParseLevel(ADD, Print(e, ADD) + ([w] + tail)) == Success(e, [w] + tail)
    decreases e, 4
  {
    hide ParseLevel, Comparison, Print, Body;
    Reads(e, ADD, [w] + tail);
  }

  /** The last operand. */
  lemma ReadsLast(e: Expr, rest: Tokens)
    requires Printable(e, ADD) && Ends(COMPARE, rest)
    ensures ParseLevel(ADD, Print(e, ADD) + rest) == Success(e, rest)
    decreases e, 4
  {
    hide ParseLevel, Comparison, Print, Body;
    LooserEnds(COMPARE, ADD, rest);
    Reads(e, ADD, rest);
    NoOperator(COMPARE, ADD, e, rest);
  }

  lemma CompareLevel(value: Expr, ts: Tokens, rest: Tokens)
    requires ParseLevel(ADD, ts) == Success(value, rest)
    ensures ParseLevel(COMPARE, ts) == Comparison(value, rest)
  {
    hide Comparison, Loop;
  }

  lemma ReadsCompare(e: Expr, rest: Tokens)
    requires PrintableBody(e) && e.Binary? && LevelOf(e) == COMPARE && Ends(COMPARE, rest)
    ensures ParseLevel(COMPARE, Body(e) + rest) == Success(e, rest)
    decreases e, 0
  {
    hide ParseLevel, Print, Loop, Items, Comparison, Ends, Lower, Word, StartsComparison;
    CompareWord(e);
    var tail := Print(e.right, ADD) + rest;
    ReadsOperand(e.left, Word(e.op), tail);
    ReadsLast(e.right, rest);
    CompareBody(e, rest);
    CompareLevel(e.left, Body(e) + rest, [Word(e.op)] + tail);
    OperatorComparison(e.left, e.op, e.right, tail, rest);
  }

  lemma CompareWord(e: Expr)
    requires e.Binary? && LevelOf(e) == COMPARE
    ensures e.op in COMPARISONS && Lower(Word(e.op).value) == Word(e.op).value && StartsComparison(Word(e.op).value)
    ensures Word(e.op).kind != Dot && Word(e.op).kind != LParen
  {
    Words();
    assert e.op in WORDS;
  }

  lemma CompareBody(e: Expr, rest: Tokens)
    requires e.Binary? && LevelOf(e) == COMPARE
    ensures Body(e) + rest == Print(e.left, ADD) + ([Word(e.op)] + (Print(e.right, ADD) + rest))
  {
    hide Print;
  }

  lemma OperatorComparison(left: Expr, op: string, right: Expr, tail: Tokens, rest: Tokens)
    requires op in COMPARISONS && ParseLevel(ADD, tail) == Success(right, rest)
    ensures Comparison(left, [Word(op)] + tail) == Success(Binary(left, op, right), rest)
  {
    hide ParseLevel, Items, Lower;
    Words();
    assert op in WORDS;
    assert ([Word(op)] + tail)[1..] == tail;
  }

  lemma ReadsNot(e: Expr, rest: Tokens)
    requires PrintableBody(e) && e.Not? && Ends(NOT, rest)
    ensures ParseLevel(NOT, Body(e) + rest) == Continue(NOT, e, rest)
    decreases e, 0
  {
    Words();
    var ts := Body(e) + rest;
    assert ts[1..] == Print(e.operand, COMPARE) + rest;
    LooserEnds(NOT, COMPARE, rest);
    Reads(e.operand, COMPARE, rest);
    hide Print, Comparison;
  }

  lemma ReadsIsNull(e: Expr, rest: Tokens)
    requires PrintableBody(e) && e.IsNull?
    ensures ParseLevel(COMPARE, Body(e) + rest) == Success(e, rest)
    decreases e, 0
  {
    hide ParseLevel, Print, Loop, Items, Comparison;
    Words();
    var tail := (if e.negated then [Token(Keyword, "not")] else []) + ([Token(NullLiteral, "null")] + rest);
    var ts := [Token(Identifier, "is")] + tail;
    ReadsOperand(e.value, Token(Identifier, "is"), tail);
    assert Body(e) + rest == Print(e.value, ADD) + ts;
    CompareLevel(e.value, Body(e) + rest, ts);
    IsNullComparison(e.value, e.negated, rest);
  }

  lemma IsNullComparison(value: Expr, negated: bool, rest: Tokens)
    ensures
      var tail := (if negated then [Token(Keyword, "not")] else []) + ([Token(NullLiteral, "null")] + rest);
      Comparison(value, [Token(Identifier, "is")] + tail) == Success(IsNull(value, negated), rest)
  {
    hide ParseLevel, Items, Lower;
    Words();
    var nulls := [Token(NullLiteral, "null")] + rest;
    var tail := (if negated then [Token(Keyword, "not")] else []) + nulls;
    var ts := [Token(Identifier, "is")] + tail;
    assert ts[1..] == tail && nulls[1..] == rest;
    assert negated ==> ts[2..] == nulls;
    assert !negated ==> tail == nulls;
  }

  lemma ReadsBetween(e: Expr, rest: Tokens)
    requires PrintableBody(e) && e.Between? && Ends(COMPARE, rest)
    ensures ParseLevel(COMPARE, Body(e) + rest) == Success(e, rest)
    decreases e, 0
  {
    hide ParseLevel, Print, Loop, Items, Comparison;
    Words();
    var between, and := Token(Keyword, "between"), Token(Keyword, "and");
    var upper := Print(e.upper, ADD) + rest;
    var lower := Print(e.lower, ADD) + ([and] + upper);
    ReadsOperand(e.value, between, lower);
    ReadsOperand(e.lower, and, upper);
    ReadsLast(e.upper, rest);
    BetweenBody(e, rest);
    CompareLevel(e.value, Body(e) + rest, [between] + lower);
    BetweenComparison(e.value, e.lower, e.upper, lower, upper, rest);
  }

  lemma BetweenBody(e: Expr, rest: Tokens)
    requires e.Between?
    ensures
      var upper := Print(e.upper, ADD) + rest;
      var lower := Print(e.lower, ADD) + ([Token(Keyword, "and")] + upper);
      Body(e) + rest == Print(e.value, ADD) + ([Token(Keyword, "between")] + lower)
  {
    hide Print;
  }

  lemma BetweenComparison(value: Expr, lo: Expr, hi: Expr, lower: Tokens, upper: Tokens, rest: Tokens)
    requires ParseLevel(ADD, lower) == Success(lo, [Token(Keyword, "and")] + upper)
    requires ParseLevel(ADD, upper) == Success(hi, rest)
    ensures Comparison(value, [Token(Keyword, "between")] + lower) == Success(Between(value, lo, hi), rest)
  {
    hide ParseLevel, Items, Lower;
    Words();
    assert ([Token(Keyword, "between")] + lower)[1..] == lower;
    assert ([Token(Keyword, "and")] + upper)[1..] == upper;
  }

  lemma ReadsLike(e: Expr, rest: Tokens)
    requires PrintableBody(e) && e.Like? && Ends(COMPARE, rest)
    ensures ParseLevel(COMPARE, Body(e) + rest) == Success(e, rest)
    decreases e, 0
  {
    hide ParseLevel, Print, Loop, Items, Comparison, Ends;
    Words();
    var like := Token(Keyword, "like");
    var tail := Print(e.pattern, ADD) + rest;
    var ts := [like] + tail;
    ReadsOperand(e.value, like, tail);
    ReadsLast(e.pattern, rest);
    LikeBody(e, rest);
    CompareLevel(e.value, Body(e) + rest, ts);
    LikeComparison(e.value, e.pattern, tail, rest);
  }

  lemma LikeBody(e: Expr, rest: Tokens)
    requires e.Like?
    ensures Body(e) + rest == Print(e.value, ADD) + ([Token(Keyword, "like")] + (Print(e.pattern, ADD) + rest))
  {
    hide Print;
  }

  lemma LikeComparison(value: Expr, pattern: Expr, tail: Tokens, rest: Tokens)
    requires ParseLevel(ADD, tail) == Success(pattern, rest)
    ensures Comparison(value, [Token(Keyword, "like")] + tail) == Success(Like(value, pattern), rest)
  {
    hide ParseLevel, Items, Lower;
    Words();
    assert ([Token(Keyword, "like")] + tail)[1..] == tail;
  }

  /** One item of a list and what comes after it. */
  lemma ReadsItem(starred: bool, e: Expr, more: Tokens)
    requires PrintableItem(starred, e) && Ends(OR, more) && !AtOp(OR, more)
    ensures
      var ts := (if starred && e == Column(None, "*") then [Token(Star, "*")] else Print(e, OR)) + more;
      (if starred && ts != [] && ts[0].kind == Star then Success(Column(None, "*"), ts[1..]) else ParseLevel(OR, ts))
         == Success(e, more)
    decreases e, 4
  {
    hide ParseLevel, Print;
    Words();
    if starred && e == Column(None, "*") {
      assert ([Token(Star, "*")] + more)[1..] == more;
    } else {
      PrintBegins(e, OR);
      assert (Print(e, OR) + more)[0] == Print(e, OR)[0];
      Reads(e, OR, more);
      NoOperator0(e, more);
    }
  }

  lemma LastItem(starred: bool, ts: Tokens, e: Expr, rest: Tokens)
    requires (if starred && ts != [] && ts[0].kind == Star then Success(Column(None, "*"), ts[1..]) else ParseLevel(OR, ts))
          == Success(e, [CLOSE] + rest)
    ensures Items(starred, ts) == Success([e], rest)
  {
    hide ParseLevel, Lower;
    Words();
    assert ([CLOSE] + rest)[1..] == rest;
  }

  lemma OneMoreItem(starred: bool, ts: Tokens, e: Expr, tail: Tokens, es: seq<Expr>, rest: Tokens)
    requires (if starred && ts != [] && ts[0].kind == Star then Success(Column(None, "*"), ts[1..]) else ParseLevel(OR, ts))
          == Success(e, [COMMA] + tail)
    requires Items(starred, tail) == Success(es, rest)
    ensures Items(starred, ts) == Success([e] + es, rest)
  {
    hide ParseLevel, Lower;
    Words();
    assert ([COMMA] + tail)[1..] == tail;
  }

  lemma ItemsOfMore(starred: bool, es: seq<Expr>, end: Tokens)
    requires |es| > 1
    ensures
      var first := if starred && es[0] == Column(None, "*") then [Token(Star, "*")] else Print(es[0], OR);
      PrintItems(starred, es) + end == first + ([COMMA] + (PrintItems(starred, es[1..]) + end))
  {
    hide Print;
  }

  lemma {:induction false} ReadsItems(starred: bool, es: seq<Expr>, rest: Tokens)
    requires es != [] && forall i | 0 <= i < |es| :: PrintableItem(starred, es[i])
    ensures Items(starred, PrintItems(starred, es) + ([CLOSE] + rest)) == Success(es, rest)
    decreases es, 0
  {
    hide ParseLevel, Print, PrintableItem, Lower, Items, Ends;
    CloseEnds(rest);
    var e, end := es[0], [CLOSE] + rest;
    var first := if starred && e == Column(None, "*") then [Token(Star, "*")] else Print(e, OR);
    var ts := PrintItems(starred, es) + end;
    if |es| == 1 {
      ReadsItem(starred, e, end);
      assert ts == first + end && es == [e];
      LastItem(starred, ts, e, rest);
    } else {
      var tail := PrintItems(starred, es[1..]) + end;
      assert es[1..] != [] && forall i | 0 <= i < |es[1..]| :: es[1..][i] == es[i + 1];
      ReadsItems(starred, es[1..], rest);
      CommaEnds(tail);
      ReadsItem(starred, e, [COMMA] + tail);
      ItemsOfMore(starred, es, end);
      assert es == [e] + es[1..];
      OneMoreItem(starred, ts, e, tail, es[1..], rest);
    }
  }

  lemma ItemsBegin(starred: bool, es: seq<Expr>, end: Tokens)
    requires es != [] && PrintableItems(starred, es)
    ensures !Is(PrintItems(starred, es) + end, ")")
  {
    hide Print;
    PrintNotEmpty(es[0], OR);
    assert (PrintItems(starred, es) + end)[0] == PrintItems(starred, es)[0];
  }

  lemma PrintNotEmpty(e: Expr, k: nat)
    ensures |Print(e, k)| >= |Body(e)| >= 1
  {
  }

  lemma CommaEnds(tail: Tokens)
    ensures Ends(OR, [COMMA] + tail) && !AtOp(OR, [COMMA] + tail) && Is([COMMA] + tail, ",")
  {
    Words();
  }

  lemma ReadsIn(e: Expr, rest: Tokens)
    requires PrintableBody(e) && e.In?
    ensures ParseLevel(COMPARE, Body(e) + rest) == Success(e, rest)
    decreases e, 0
  {
    hide ParseLevel, Print, PrintItems, Loop, Items, Comparison;
    Words();
    var word, end := Token(Keyword, "in"), [CLOSE] + rest;
    var list := [OPEN] + (PrintItems(false, e.values) + end);
    ReadsOperand(e.value, word, list);
    assert Body(e) + rest == Print(e.value, ADD) + ([word] + list);
    CompareLevel(e.value, Body(e) + rest, [word] + list);
    if e.values == [] {
      NoItems(false);
      assert PrintItems(false, e.values) + end == end;
      CloseEnds(rest);
      EmptyInComparison(e.value, end);
    } else {
      ReadsItems(false, e.values, rest);
      ItemsBegin(false, e.values, end);
      InComparison(e.value, PrintItems(false, e.values) + end, e.values, rest);
    }
  }

  lemma NoItems(starred: bool)
    ensures PrintItems(starred, []) == []
  {
  }

  lemma EmptyInComparison(value: Expr, end: Tokens)
    requires Is(end, ")")
    ensures Comparison(value, [Token(Keyword, "in")] + ([OPEN] + end)) == Success(In(value, []), end[1..])
  {
    hide ParseLevel, Items, Lower;
    Words();
    var ts := [Token(Keyword, "in")] + ([OPEN] + end);
    assert ts[1..] == [OPEN] + end && ts[2..] == end && ts[3..] == end[1..];
  }

  lemma InComparison(value: Expr, items: Tokens, values: seq<Expr>, rest: Tokens)
    requires Items(false, items) == Success(values, rest) && !Is(items, ")")
    ensures Comparison(value, [Token(Keyword, "in")] + ([OPEN] + items)) == Success(In(value, values), rest)
  {
    hide ParseLevel, Items, Lower;
    Words();
    var ts := [Token(Keyword, "in")] + ([OPEN] + items);
    assert ts[1..] == [OPEN] + items && ts[2..] == items;
  }

  lemma ReadsFunction(e: Expr, rest: Tokens)
    requires PrintableBody(e) && e.Function?
    ensures ParseLevel(TERM, Body(e) + rest) == Success(e, rest)
    decreases e, 0
  {
    hide Items, Print, Comparison, Loop;
    Words();
    var items := PrintItems(true, e.args) + ([CLOSE] + rest);
    var ts := [Token(Identifier, e.name), OPEN] + items;
    assert Body(e) + rest == ts;
    if e.args != [] {
      ReadsItems(true, e.args, rest);
      ItemsBegin(true, e.args, [CLOSE] + rest);
    }
    assert ts[2..] == items && ts[1..] == [OPEN] + items;
    assert e.args == [] ==> ts[3..] == rest;
  }

  /** Parsing the printed tokens gives the very same expression, and consumes exactly those tokens. */
  lemma ReadsWhole(e: Expr, rest: Tokens)
    requires Printable(e, OR) && Ends(OR, rest) && !AtOp(OR, rest)
    ensures ParseLevel(OR, Print(e, OR) + rest) == Success(e, rest)
  {
    hide ParseLevel, Print;
    Reads(e, OR, rest);
    NoOperator0(e, rest);
  }

  // --- Where printing is not read back -------------------------------------------------------------------------------------

  /** A string spelled `not` at the start of a comparison is taken for the operator. */
  lemma QuotedNotIsAnOperator()
    ensures
      var e := Binary(Literal(StringLiteral, "NOT"), "=", Column(None, "x"));
      ParseLevel(OR, Print(e, OR)) == Failure
  {
    Words();
    var e := Binary(Literal(StringLiteral, "NOT"), "=", Column(None, "x"));
    var ts := [Token(StringLiteral, "NOT"), Token(Operator, "="), Token(Identifier, "x")];
    assert Print(e, OR) == ts;
    assert Lower("NOT") == "not";
    assert Term(ts[1..]) == Failure;
    assert ParseLevel(MUL, ts[1..]) == Failure;
    assert ParseLevel(ADD, ts[1..]) == Failure;
    assert ParseLevel(COMPARE, ts[1..]) == Failure;
    assert ParseLevel(NOT, ts) == Failure;
    assert ParseLevel(AND, ts) == Failure;
  }

  /** A string spelled `)` at the start of a list ends the list. */
  lemma QuotedParenthesisEndsTheList()
    ensures
      var e := In(Column(None, "x"), [Literal(StringLiteral, ")")]);
      ParseLevel(COMPARE, Print(e, COMPARE)) == Success(In(Column(None, "x"), []), [CLOSE])
  {
    var x, word, end := Column(None, "x"), Token(Keyword, "in"), [Token(StringLiteral, ")")] + [CLOSE];
    var e := In(x, [Literal(StringLiteral, ")")]);
    PrintsQuoted(x, word, end);
    hide ParseLevel, Print, Items, Comparison;
    Words();
    LowerIs("x");
    ReadsOperand(x, word, [OPEN] + end);
    CompareLevel(x, Print(e, COMPARE), [word] + ([OPEN] + end));
    EmptyInComparison(x, end);
  }

  lemma PrintsQuoted(x: Expr, word: Token, end: Tokens)
    requires word == Token(Keyword, "in") && end == [Token(StringLiteral, ")")] + [CLOSE]
    ensures Print(In(x, [Literal(StringLiteral, ")")]), COMPARE) == Print(x, ADD) + ([word] + ([OPEN] + end))
  {
    assert PrintItems(false, [Literal(StringLiteral, ")")]) == [Token(StringLiteral, ")")];
  }
}
