/** Only what is printable is read back: the parser cannot get an expression from its printed tokens in any other way. */
module ExpressionUnique {
  import opened Options
  import opened Expressions
  import opened ExpressionRoundTrip

  // --- How many tokens an expression takes ---------------------------------------------------------------------------

  /** `rest` is what is left of `ts` after at least `n` tokens. */
  predicate Took(ts: Tokens, rest: Tokens, n: nat) {
    |rest| + n <= |ts| && rest == ts[|ts| - |rest|..]
  }

  lemma TookBoth(a: Tokens, b: Tokens, c: Tokens, n: nat, m: nat)
    requires Took(a, b, n) && Took(b, c, m)
    ensures Took(a, c, n + m)
  {
  }

  lemma TookFirst(ts: Tokens, i: nat)
    requires i <= |ts|
    ensures Took(ts, ts[i..], i)
  {
  }

  lemma TookLess(ts: Tokens, rest: Tokens, n: nat, m: nat)
    requires Took(ts, rest, n) && m <= n
    ensures Took(ts, rest, m)
  {
  }

  /** What is left after exactly `|front|` tokens. */
  lemma TookExactly(front: Tokens, rest: Tokens, left: Tokens, n: nat)
    requires Took(front + rest, left, n) && |left| == |rest|
    ensures left == rest
  {
  }

  lemma PrintSize(e: Expr, k: nat)
    ensures |Print(e, k)| == |Body(e)| + if LevelOf(e) < k then 2 else 0
  {
    hide Body;
  }

  lemma BinarySize(left: Expr, op: string, right: Expr, k: nat)
    requires LevelOf(Binary(left, op, right)) == k
    ensures |Body(Binary(left, op, right))| == |Print(left, if k == COMPARE then ADD else k)| + 1 + |Print(right, k + 1)|
  {
    hide Print;
  }

  lemma OpLevel(left: Expr, op: string, right: Expr, k: nat)
    requires op in Ops(k)
    ensures LevelOf(Binary(left, op, right)) == k && k != COMPARE
  {
  }

  /** No parser result takes fewer tokens than printing it does. */
  lemma {:induction false} CostLevel(k: nat, ts: Tokens)
    requires k <= TERM && ParseLevel(k, ts).Success?
    ensures Took(ts, ParseLevel(k, ts).rest, |Print(ParseLevel(k, ts).value, k)|)
    decreases |ts|, 10 - k
  {
    hide Print, Body, Took, Loop, Comparison, Term;
    if k == TERM {
      CostTerm(ts);
    } else if k == NOT && Is(ts, "not") {
      CostLevel(COMPARE, ts[1..]);
      var operand, rest := ParseLevel(COMPARE, ts[1..]).value, ParseLevel(COMPARE, ts[1..]).rest;
      TookFirst(ts, 1);
      TookBoth(ts, ts[1..], rest, 1, |Print(operand, COMPARE)|);
      NotSize(operand);
    } else {
      CostLevel(k + 1, ts);
      var e, rest := ParseLevel(k + 1, ts).value, ParseLevel(k + 1, ts).rest;
      if k == COMPARE {
        CostComparison(e, ts, rest);
      } else {
        PrintGrows(e, k);
        TookLess(ts, rest, |Print(e, k + 1)|, |Print(e, k)|);
        CostLoop(k, e, ts, rest);
      }
    }
  }

  lemma NotSize(operand: Expr)
    ensures |Print(Not(operand), NOT)| == 1 + |Print(operand, COMPARE)|
  {
  }

  lemma PrintGrows(e: Expr, k: nat)
    ensures |Print(e, k)| <= |Print(e, k + 1)|
  {
    PrintSize(e, k);
    PrintSize(e, k + 1);
  }

  lemma {:induction false} CostLoop(k: nat, left: Expr, start: Tokens, ts: Tokens)
    requires k < TERM && Took(start, ts, |Print(left, k)|) && Loop(k, left, ts).Success?
    requires |ts| <= |start|
    ensures Took(start, Loop(k, left, ts).rest, |Print(Loop(k, left, ts).value, k)|)
    decreases |ts|, 0
  {
    hide Print, Body, Took, ParseLevel;
    if AtOp(k, ts) {
      CostLevel(k + 1, ts[1..]);
      var right, rest := ParseLevel(k + 1, ts[1..]).value, ParseLevel(k + 1, ts[1..]).rest;
      StepCost(k, left, start, ts, right, rest);
      CostLoop(k, Binary(left, Lower(ts[0].value), right), start, rest);
    }
  }

  /** One operator more. */
  lemma StepCost(k: nat, left: Expr, start: Tokens, ts: Tokens, right: Expr, rest: Tokens)
    requires k < TERM && AtOp(k, ts) && ts != []
    requires Took(start, ts, |Print(left, k)|) && Took(ts[1..], rest, |Print(right, k + 1)|)
    ensures var e := Binary(left, Lower(ts[0].value), right);
            LevelOf(e) == k && Took(start, rest, |Print(e, k)|)
  {
    var op := Lower(ts[0].value);
    OpLevel(left, op, right, k);
    BinarySize(left, op, right, k);
    PrintSize(Binary(left, op, right), k);
    TookFirst(ts, 1);
    TookBoth(start, ts, ts[1..], |Print(left, k)|, 1);
    TookBoth(start, ts[1..], rest, |Print(left, k)| + 1, |Print(right, k + 1)|);
  }

  // --- The branches of a comparison, backwards ---------------------------------------------------------------------------

  predicate AtComparison(ts: Tokens) {
    Is(ts, "is") || Is(ts, "between") || Is(ts, "in") || Is(ts, "like") || (ts != [] && Lower(ts[0].value) in COMPARISONS)
  }

  lemma NoBranch(left: Expr, ts: Tokens)
    requires !AtComparison(ts)
    ensures Comparison(left, ts) == Success(left, ts)
  {
    hide ParseLevel, Items, Lower;
  }

  lemma IsBranch(left: Expr, ts: Tokens)
    requires Is(ts, "is") && Comparison(left, ts).Success?
    ensures var negated := Is(ts[1..], "not");
            var n := if negated then 3 else 2;
            |ts| >= n && Comparison(left, ts) == Success(IsNull(left, negated), ts[n..])
  {
    hide ParseLevel, Items, Lower;
    if Is(ts[1..], "not") {
      assert |ts| >= 3 && ts[2..][1..] == ts[3..];
    } else {
      assert |ts| >= 2 && ts[1..][1..] == ts[2..];
    }
  }

  lemma BetweenBranch(left: Expr, ts: Tokens)
    requires Is(ts, "between") && Comparison(left, ts).Success?
    ensures ParseLevel(ADD, ts[1..]).Success?
    ensures var p := ParseLevel(ADD, ts[1..]);
            && Is(p.rest, "and") && ParseLevel(ADD, p.rest[1..]).Success?
            && var q := ParseLevel(ADD, p.rest[1..]);
               Comparison(left, ts) == Success(Between(left, p.value, q.value), q.rest)
  {
    hide ParseLevel, Items, Lower;
  }

  lemma InBranch(left: Expr, ts: Tokens)
    requires Is(ts, "in") && Comparison(left, ts).Success?
    ensures |ts| >= 2 && Is(ts[1..], "(")
    ensures if Is(ts[2..], ")") then |ts| >= 3 && Comparison(left, ts) == Success(In(left, []), ts[3..])
            else var p := Items(false, ts[2..]);
                 p.Success? && Comparison(left, ts) == Success(In(left, p.value), p.rest)
  {
    hide ParseLevel, Items, Lower;
    assert Is(ts[1..], "(");
    assert |ts| >= 2;
  }

  lemma LikeBranch(left: Expr, ts: Tokens)
    requires Is(ts, "like") && Comparison(left, ts).Success?
    ensures ParseLevel(ADD, ts[1..]).Success?
    ensures var p := ParseLevel(ADD, ts[1..]); Comparison(left, ts) == Success(Like(left, p.value), p.rest)
  {
    hide ParseLevel, Items, Lower;
  }

  lemma OperatorBranch(left: Expr, ts: Tokens)
    requires ts != [] && Lower(ts[0].value) in COMPARISONS && Comparison(left, ts).Success?
    ensures ParseLevel(ADD, ts[1..]).Success?
    ensures var p := ParseLevel(ADD, ts[1..]);
            Comparison(left, ts) == Success(Binary(left, Lower(ts[0].value), p.value), p.rest)
  {
    hide ParseLevel, Items, Lower;
  }

  lemma CompareSizes(left: Expr)
    ensures forall negated :: |Print(IsNull(left, negated), COMPARE)| == |Print(left, ADD)| + if negated then 3 else 2
    ensures forall x :: |Print(Like(left, x), COMPARE)| == |Print(left, ADD)| + 1 + |Print(x, ADD)|
    ensures forall x, y :: |Print(Between(left, x, y), COMPARE)| == |Print(left, ADD)| + 1 + |Print(x, ADD)| + 1 + |Print(y, ADD)|
    ensures forall xs :: |Print(In(left, xs), COMPARE)| == |Print(left, ADD)| + 2 + |PrintItems(false, xs)| + 1
  {
  }

  lemma {:induction false} CostComparison(left: Expr, start: Tokens, ts: Tokens)
    requires Took(start, ts, |Print(left, ADD)|) && Comparison(left, ts).Success?
    ensures Took(start, Comparison(left, ts).rest, |Print(Comparison(left, ts).value, COMPARE)|)
    decreases |ts|, 1
  {
    hide Print, PrintItems, Body, Took, ParseLevel, Items, Comparison, Lower;
    CompareSizes(left);
    var n := |Print(left, ADD)|;
    if Is(ts, "is") {
      IsBranch(left, ts);
      var m := if Is(ts[1..], "not") then 3 else 2;
      TookFirst(ts, m);
      TookBoth(start, ts, ts[m..], n, m);
    } else if Is(ts, "between") {
      BetweenBranch(left, ts);
      CostOperand(start, ts, n);
      var p := ParseLevel(ADD, ts[1..]);
      CostOperand(start, p.rest, n + 1 + |Print(p.value, ADD)|);
    } else if Is(ts, "in") {
      InBranch(left, ts);
      CostList(left, start, ts);
    } else if Is(ts, "like") {
      LikeBranch(left, ts);
      CostOperand(start, ts, n);
    } else if AtComparison(ts) {
      OperatorBranch(left, ts);
      CostOperand(start, ts, n);
      ComparisonSize(left, Lower(ts[0].value), ParseLevel(ADD, ts[1..]).value);
    } else {
      NoBranch(left, ts);
      PrintGrows(left, COMPARE);
      TookLess(start, ts, n, |Print(left, COMPARE)|);
    }
  }

  lemma ComparisonSize(left: Expr, op: string, right: Expr)
    requires op in COMPARISONS
    ensures LevelOf(Binary(left, op, right)) == COMPARE
    ensures |Print(Binary(left, op, right), COMPARE)| == |Print(left, ADD)| + 1 + |Print(right, ADD)|
  {
    BinarySize(left, op, right, COMPARE);
    PrintSize(Binary(left, op, right), COMPARE);
  }

  /** A word and the operand after it. */
  lemma CostOperand(start: Tokens, ts: Tokens, n: nat)
    requires Took(start, ts, n) && ts != [] && ParseLevel(ADD, ts[1..]).Success?
    ensures var p := ParseLevel(ADD, ts[1..]); Took(start, p.rest, n + 1 + |Print(p.value, ADD)|)
    decreases |ts|, 0
  {
    hide Print, Body, Took, ParseLevel;
    var p := ParseLevel(ADD, ts[1..]);
    CostLevel(ADD, ts[1..]);
    TookFirst(ts, 1);
    TookBoth(start, ts, ts[1..], n, 1);
    TookBoth(start, ts[1..], p.rest, n + 1, |Print(p.value, ADD)|);
  }

  lemma CostList(left: Expr, start: Tokens, ts: Tokens)
    requires Took(start, ts, |Print(left, ADD)|) && |ts| >= 2 && Is(ts, "in")
    requires if Is(ts[2..], ")") then |ts| >= 3 && Comparison(left, ts) == Success(In(left, []), ts[3..])
             else var p := Items(false, ts[2..]);
                  p.Success? && Comparison(left, ts) == Success(In(left, p.value), p.rest)
    ensures Took(start, Comparison(left, ts).rest, |Print(Comparison(left, ts).value, COMPARE)|)
    decreases |ts|, 0
  {
    hide Print, Body, Took, ParseLevel, Items, Comparison, Lower;
    CompareSizes(left);
    NoItems(false);
    var n := |Print(left, ADD)|;
    if Is(ts[2..], ")") {
      TookFirst(ts, 3);
      TookBoth(start, ts, ts[3..], n, 3);
    } else {
      var p := Items(false, ts[2..]);
      CostItems(false, ts[2..]);
      TookFirst(ts, 2);
      TookBoth(start, ts, ts[2..], n, 2);
      TookBoth(start, ts[2..], p.rest, n + 2, |PrintItems(false, p.value)| + 1);
    }
  }

  // --- Terms and lists, backwards ----------------------------------------------------------------------------------------

  lemma TermSizes()
    ensures forall kind, text :: |Print(Literal(kind, text), TERM)| == 1
    ensures forall c :: |Print(Column(None, c), TERM)| == 1
    ensures forall t, c :: |Print(Column(Some(t), c), TERM)| == 3
    ensures forall name, args :: |Print(Function(name, args), TERM)| == 3 + |PrintItems(true, args)|
  {
  }

  lemma CallBranch(ts: Tokens)
    requires ts != [] && IsName(ts[0].kind) && |ts| > 1 && ts[1].kind == LParen && Term(ts).Success?
    ensures var name := Lower(ts[0].value);
            if Is(ts[2..], ")") then |ts| >= 3 && Term(ts) == Success(Function(name, []), ts[3..])
            else var p := Items(true, ts[2..]);
                 p.Success? && Term(ts) == Success(Function(name, p.value), p.rest)
  {
    hide ParseLevel, Items, Lower;
  }

  lemma ParenthesisBranch(ts: Tokens)
    requires ts != [] && ts[0].kind == LParen && Term(ts).Success?
    ensures var p := ParseLevel(OR, ts[1..]);
            p.Success? && Is(p.rest, ")") && Term(ts) == Success(p.value, p.rest[1..])
  {
    hide ParseLevel, Items, Lower;
  }

  lemma {:induction false} CostTerm(ts: Tokens)
    requires Term(ts).Success?
    ensures Took(ts, Term(ts).rest, |Print(Term(ts).value, TERM)|)
    decreases |ts|, 1
  {
    hide Print, PrintItems, Body, Took, ParseLevel, Items, Lower;
    TermSizes();
    if IsName(ts[0].kind) && |ts| > 1 && ts[1].kind == LParen {
      CallBranch(ts);
      CostCall(ts);
    } else if ts[0].kind == LParen {
      ParenthesisBranch(ts);
      CostParenthesis(ts);
    } else {
      TookFirst(ts, |ts| - |Term(ts).rest|);
    }
  }

  lemma CostCall(ts: Tokens)
    requires |ts| > 1
    requires if Is(ts[2..], ")") then |ts| >= 3 && Term(ts) == Success(Function(Lower(ts[0].value), []), ts[3..])
             else var p := Items(true, ts[2..]);
                  p.Success? && Term(ts) == Success(Function(Lower(ts[0].value), p.value), p.rest)
    ensures Took(ts, Term(ts).rest, |Print(Term(ts).value, TERM)|)
    decreases |ts|, 0
  {
    hide Print, Body, Took, ParseLevel, Items, Term, Lower;
    TermSizes();
    NoItems(true);
    if Is(ts[2..], ")") {
      TookFirst(ts, 3);
    } else {
      var p := Items(true, ts[2..]);
      CostItems(true, ts[2..]);
      TookFirst(ts, 2);
      TookBoth(ts, ts[2..], p.rest, 2, |PrintItems(true, p.value)| + 1);
    }
  }

  lemma CostParenthesis(ts: Tokens)
    requires ts != [] && ParseLevel(OR, ts[1..]).Success? && Is(ParseLevel(OR, ts[1..]).rest, ")")
    ensures var p := ParseLevel(OR, ts[1..]); Took(ts, p.rest[1..], |Print(p.value, TERM)|)
    decreases |ts|, 0
  {
    hide Print, Body, Took, ParseLevel, Lower;
    var p := ParseLevel(OR, ts[1..]);
    CostLevel(OR, ts[1..]);
    TookFirst(ts, 1);
    TookFirst(p.rest, 1);
    TookBoth(ts, ts[1..], p.rest, 1, |Print(p.value, OR)|);
    TookBoth(ts, p.rest, p.rest[1..], 1 + |Print(p.value, OR)|, 1);
    PrintSize(p.value, OR);
    PrintSize(p.value, TERM);
    TookLess(ts, p.rest[1..], 2 + |Print(p.value, OR)|, |Print(p.value, TERM)|);
  }

  /** What is read for one item. */
  function ItemAt(starred: bool, ts: Tokens): Parse<Expr> {
    if starred && ts != [] && ts[0].kind == Star then Success(Column(None, "*"), ts[1..]) else ParseLevel(OR, ts)
  }

  function PrintItem(starred: bool, e: Expr): Tokens {
    if starred && e == Column(None, "*") then [Token(Star, "*")] else Print(e, OR)
  }

  lemma ItemsBranch(starred: bool, ts: Tokens)
    requires Items(starred, ts).Success?
    ensures var p := ItemAt(starred, ts);
            && p.Success?
            && if Is(p.rest, ",") then
                 var q := Items(starred, p.rest[1..]); q.Success? && Items(starred, ts) == Success([p.value] + q.value, q.rest)
               else Is(p.rest, ")") && Items(starred, ts) == Success([p.value], p.rest[1..])
  {
    hide ParseLevel, Lower;
  }

  lemma ItemsSize(starred: bool, e: Expr, es: seq<Expr>)
    ensures |PrintItems(starred, [e])| == |PrintItem(starred, e)|
    ensures es != [] ==> |PrintItems(starred, [e] + es)| == |PrintItem(starred, e)| + 1 + |PrintItems(starred, es)|
  {
    hide Print;
    assert ([e] + es)[1..] == es;
  }

  lemma ItemCost(starred: bool, ts: Tokens)
    requires ItemAt(starred, ts).Success?
    ensures Took(ts, ItemAt(starred, ts).rest, |PrintItem(starred, ItemAt(starred, ts).value)|)
    decreases |ts|, 19
  {
    hide Print, Body, Took, ParseLevel;
    if starred && ts != [] && ts[0].kind == Star {
      TookFirst(ts, 1);
    } else {
      CostLevel(OR, ts);
      var e := ItemAt(starred, ts).value;
      PrintNotEmpty(e, OR);
      TookLess(ts, ItemAt(starred, ts).rest, |Print(e, OR)|, |PrintItem(starred, e)|);
    }
  }

  lemma {:induction false} CostItems(starred: bool, ts: Tokens)
    requires Items(starred, ts).Success?
    ensures Items(starred, ts).value != []
    ensures Took(ts, Items(starred, ts).rest, |PrintItems(starred, Items(starred, ts).value)| + 1)
    decreases |ts|, 20
  {
    hide Print, PrintItems, PrintItem, Body, Took, ParseLevel, Items, ItemAt, Lower;
    ItemsBranch(starred, ts);
    ItemCost(starred, ts);
    var p := ItemAt(starred, ts);
    var n := |PrintItem(starred, p.value)|;
    TookShrinks(ts, p.rest, n);
    TookFirst(p.rest, 1);
    TookBoth(ts, p.rest, p.rest[1..], n, 1);
    if Is(p.rest, ",") {
      var q := Items(starred, p.rest[1..]);
      CostItems(starred, p.rest[1..]);
      TookBoth(ts, p.rest[1..], q.rest, n + 1, |PrintItems(starred, q.value)| + 1);
      ItemsSize(starred, p.value, q.value);
    } else {
      ItemsSize(starred, p.value, []);
    }
  }

  lemma TookShrinks(ts: Tokens, rest: Tokens, n: nat)
    requires Took(ts, rest, n)
    ensures |rest| <= |ts|
  {
  }

  // --- Reaching an expression ------------------------------------------------------------------------------------------------

  /** The loop of level `k` comes to hold `e` with `rest` before it. */
  predicate LoopArrives(k: nat, left: Expr, ts: Tokens, e: Expr, rest: Tokens)
    requires k < TERM
    decreases |ts|
  {
    || (left == e && ts == rest)
    || (AtOp(k, ts) &&
        var p := ParseLevel(k + 1, ts[1..]);
        p.Success? && LoopArrives(k, Binary(left, Lower(ts[0].value), p.value), p.rest, e, rest))
  }

  predicate Arrives(k: nat, ts: Tokens, e: Expr, rest: Tokens)
    requires k <= TERM
  {
    if k == TERM || (k == NOT && Is(ts, "not")) then ParseLevel(k, ts) == Success(e, rest)
    else
      var p := ParseLevel(k + 1, ts);
      p.Success? &&
      if k == COMPARE then Comparison(p.value, p.rest) == Success(e, rest) else LoopArrives(k, p.value, p.rest, e, rest)
  }

  lemma {:induction false} LoopEnds(k: nat, left: Expr, ts: Tokens)
    requires k < TERM && Loop(k, left, ts).Success?
    ensures LoopArrives(k, left, ts, Loop(k, left, ts).value, Loop(k, left, ts).rest)
    decreases |ts|
  {
    hide ParseLevel;
    if AtOp(k, ts) {
      var p := ParseLevel(k + 1, ts[1..]);
      LoopEnds(k, Binary(left, Lower(ts[0].value), p.value), p.rest);
    }
  }

  lemma SuccessArrives(k: nat, ts: Tokens, e: Expr, rest: Tokens)
    requires k <= TERM && ParseLevel(k, ts) == Success(e, rest)
    ensures Arrives(k, ts, e, rest)
  {
    hide Loop, LoopArrives, Comparison, Term;
    if k < TERM && !(k == NOT && Is(ts, "not")) && k != COMPARE {
      LoopEnds(k, ParseLevel(k + 1, ts).value, ParseLevel(k + 1, ts).rest);
    }
  }

  lemma {:induction false} LoopArrivesCost(k: nat, left: Expr, start: Tokens, ts: Tokens, e: Expr, rest: Tokens)
    requires k < TERM && Took(start, ts, |Print(left, k)|) && LoopArrives(k, left, ts, e, rest)
    ensures Took(start, rest, |Print(e, k)|)
    decreases |ts|
  {
    hide Print, Took, ParseLevel;
    if !(left == e && ts == rest) {
      var p := ParseLevel(k + 1, ts[1..]);
      CostLevel(k + 1, ts[1..]);
      StepCost(k, left, start, ts, p.value, p.rest);
      LoopArrivesCost(k, Binary(left, Lower(ts[0].value), p.value), start, p.rest, e, rest);
    }
  }

  lemma FirstCost(k: nat, ts: Tokens)
    requires k < TERM && ParseLevel(k + 1, ts).Success?
    ensures Took(ts, ParseLevel(k + 1, ts).rest, |Print(ParseLevel(k + 1, ts).value, k)|)
  {
    hide Print, Took, ParseLevel;
    var p := ParseLevel(k + 1, ts);
    CostLevel(k + 1, ts);
    PrintGrows(p.value, k);
    TookLess(ts, p.rest, |Print(p.value, k + 1)|, |Print(p.value, k)|);
  }

  lemma ArrivesCost(k: nat, ts: Tokens, e: Expr, rest: Tokens)
    requires k <= TERM && Arrives(k, ts, e, rest)
    ensures Took(ts, rest, |Print(e, k)|)
  {
    hide Print, Took, ParseLevel, LoopArrives, Comparison;
    if k == TERM || (k == NOT && Is(ts, "not")) {
      CostLevel(k, ts);
    } else if k == COMPARE {
      CostLevel(ADD, ts);
      CostComparison(ParseLevel(ADD, ts).value, ts, ParseLevel(ADD, ts).rest);
    } else {
      FirstCost(k, ts);
      LoopArrivesCost(k, ParseLevel(k + 1, ts).value, ts, ParseLevel(k + 1, ts).rest, e, rest);
    }
  }

  /** An expression the loop builds is an operator of its level; the last turn built it from what stood before. */
  lemma {:induction false} LastTurn(k: nat, left: Expr, ts: Tokens, e: Expr, rest: Tokens) returns (at: Tokens)
    requires k < TERM && LoopArrives(k, left, ts, e, rest) && !(left == e && ts == rest)
    ensures e.Binary? && LevelOf(e) == k && e.op in Ops(k)
    ensures LoopArrives(k, left, ts, e.left, at)
    ensures AtOp(k, at) && Lower(at[0].value) == e.op && ParseLevel(k + 1, at[1..]) == Success(e.right, rest)
    decreases |ts|
  {
    hide ParseLevel, Lower;
    var p := ParseLevel(k + 1, ts[1..]);
    var next := Binary(left, Lower(ts[0].value), p.value);
    OpLevel(left, Lower(ts[0].value), p.value, k);
    if next == e && p.rest == rest {
      at := ts;
    } else {
      at := LastTurn(k, next, p.rest, e, rest);
    }
  }

  lemma ComparisonShape(left: Expr, ts: Tokens)
    requires Comparison(left, ts).Success?
    ensures var p := Comparison(left, ts);
            (p.value == left && p.rest == ts && !AtComparison(ts)) || (LevelOf(p.value) == COMPARE && AtComparison(ts))
  {
    hide ParseLevel, Items, Lower;
  }

  /** An expression of another level comes from the next tighter one. */
  lemma Sink(k: nat, ts: Tokens, e: Expr, rest: Tokens)
    requires k < TERM && Arrives(k, ts, e, rest) && LevelOf(e) != k
    ensures Arrives(k + 1, ts, e, rest) && (k == NOT ==> !Is(ts, "not"))
  {
    hide Loop, LoopArrives, Comparison, Term, Arrives, ParseLevel;
    ArrivesMeans(k, ts, e, rest);
    var p := ParseLevel(k + 1, ts);
    if k == NOT && Is(ts, "not") {
      NegationShape(ts);
    } else {
      if k == COMPARE {
        ComparisonShape(p.value, p.rest);
      } else if !(p.value == e && p.rest == rest) {
        var at := LastTurn(k, p.value, p.rest, e, rest);
      }
      SuccessArrives(k + 1, ts, e, rest);
    }
  }

  lemma ArrivesMeans(k: nat, ts: Tokens, e: Expr, rest: Tokens)
    requires k <= TERM && Arrives(k, ts, e, rest)
    ensures if k == TERM || (k == NOT && Is(ts, "not")) then ParseLevel(k, ts) == Success(e, rest)
            else
              var p := ParseLevel(k + 1, ts);
              && p.Success?
              && if k == COMPARE then Comparison(p.value, p.rest) == Success(e, rest)
                 else LoopArrives(k, p.value, p.rest, e, rest)
  {
    hide ParseLevel, LoopArrives, Comparison;
  }

  lemma NegationShape(ts: Tokens)
    requires Is(ts, "not") && ParseLevel(NOT, ts).Success?
    ensures var p := ParseLevel(COMPARE, ts[1..]);
            p.Success? && ParseLevel(NOT, ts) == Success(Not(p.value), p.rest)
  {
    hide Comparison, Loop, Term;
  }

  lemma {:induction false} SinkTo(k: nat, j: nat, ts: Tokens, e: Expr, rest: Tokens)
    requires k <= j <= TERM && Arrives(k, ts, e, rest) && (LevelOf(e) < k || j <= LevelOf(e))
    ensures Arrives(j, ts, e, rest) && (k <= NOT < j ==> !Is(ts, "not"))
    decreases j - k
  {
    hide Arrives;
    if k < j {
      Sink(k, ts, e, rest);
      SinkTo(k + 1, j, ts, e, rest);
    }
  }

  // --- Only what is printable ------------------------------------------------------------------------------------------------

  /** If the parser reaches an expression from its own tokens, every place in them is read as it was meant. */
  lemma {:induction false} Only(e: Expr, k: nat, rest: Tokens)
    requires k <= TERM && Arrives(k, Print(e, k) + rest, e, rest)
    ensures Printable(e, k)
    decreases e, 3
  {
    hide Arrives, Body, PrintableBody, StartsWell;
    if k <= LevelOf(e) {
      OnlyFrom(e, k, rest);
    } else {
      var inner := Body(e) + ([CLOSE] + rest);
      assert Print(e, k) + rest == [OPEN] + inner;
      SinkTo(k, TERM, [OPEN] + inner, e, rest);
      InsideParentheses(e, inner, rest);
      OnlyFrom(e, OR, [CLOSE] + rest);
    }
  }

  lemma InsideParentheses(e: Expr, inner: Tokens, rest: Tokens)
    requires Arrives(TERM, [OPEN] + inner, e, rest) && inner == Body(e) + ([CLOSE] + rest)
    ensures Arrives(OR, inner, e, [CLOSE] + rest)
  {
    hide Body, Arrives, ParseLevel;
    var ts := [OPEN] + inner;
    ArrivesMeans(TERM, ts, e, rest);
    TermLevel(ts);
    ParenthesisBranch(ts);
    assert ts[1..] == inner;
    var p := ParseLevel(OR, inner);
    CostLevel(OR, inner);
    TookExactly(Body(e), [CLOSE] + rest, p.rest, |Print(e, OR)|);
    SuccessArrives(OR, inner, e, [CLOSE] + rest);
  }

  lemma TermLevel(ts: Tokens)
    ensures ParseLevel(TERM, ts) == Term(ts)
  {
    hide Term;
  }

  lemma OnlyFrom(e: Expr, k: nat, rest: Tokens)
    requires k <= LevelOf(e) && Arrives(k, Body(e) + rest, e, rest)
    ensures PrintableBody(e) && (k <= NOT ==> StartsWell(e))
    decreases e, 2
  {
    hide Arrives, Body, PrintableBody;
    var ts := Body(e) + rest;
    SinkTo(k, LevelOf(e), ts, e, rest);
    PrintNotEmpty(e, OR);
    assert ts[0] == Body(e)[0];
    OnlyBody(e, rest);
  }

  lemma {:induction false} OnlyBody(e: Expr, rest: Tokens)
    requires Arrives(LevelOf(e), Body(e) + rest, e, rest)
    ensures PrintableBody(e)
    decreases e, 1
  {
    hide Arrives, Body;
    match e
    case Literal(_, _) => OnlyLiteral(e, rest);
    case Column(_, _) => OnlyColumn(e, rest);
    case Function(_, _) => OnlyFunction(e, rest);
    case Binary(_, _, _) => if LevelOf(e) == COMPARE { OnlyCompare(e, rest); } else { OnlyBinary(e, rest); }
    case Not(_) => OnlyNot(e, rest);
    case IsNull(_, _) => OnlyIsNull(e, rest);
    case Between(_, _, _) => OnlyBetween(e, rest);
    case In(_, _) => OnlyIn(e, rest);
    case Like(_, _) => OnlyLike(e, rest);
  }

  lemma OnlyLiteral(e: Expr, rest: Tokens)
    requires e.Literal? && Arrives(TERM, Body(e) + rest, e, rest)
    ensures PrintableBody(e)
  {
    hide Items, Loop, Comparison, ParseLevel, Lower, Arrives;
    var ts := Body(e) + rest;
    ArrivesMeans(TERM, ts, e, rest);
    TermLevel(ts);
    assert ts[0].kind == e.kind && ts[1..] == rest;
    if ts[0].kind == LParen {
      ParenthesisBranch(ts);
    }
  }

  lemma OnlyColumn(e: Expr, rest: Tokens)
    requires e.Column? && Arrives(TERM, Body(e) + rest, e, rest)
    ensures PrintableBody(e)
  {
    hide Items, Loop, Comparison, ParseLevel, Lower, Arrives;
    var ts := Body(e) + rest;
    ArrivesMeans(TERM, ts, e, rest);
    TermLevel(ts);
    assert e.table.Some? ==> ts[0].value == e.table.value && ts[2].value == e.column;
    assert e.table.None? ==> ts[0].value == e.column;
  }

  lemma OnlyBinary(e: Expr, rest: Tokens)
    requires e.Binary? && LevelOf(e) != COMPARE && Arrives(LevelOf(e), Body(e) + rest, e, rest)
    ensures PrintableBody(e)
    decreases e, 0
  {
    hide Print, Body, ParseLevel, LoopArrives, Comparison, Took, Printable;
    var k, ts := LevelOf(e), Body(e) + rest;
    var p := ParseLevel(k + 1, ts);
    BinarySize(e.left, e.op, e.right, k);
    if p.value == e && p.rest == rest {
      CostLevel(k + 1, ts);
      PrintSize(e, k + 1);
      NotEnough(ts, rest, |Body(e)|, |Body(e)| + 2);
    } else {
      var at := LastTurn(k, p.value, p.rest, e, rest);
      var tail := Print(e.right, k + 1) + rest;
      BinaryBody(e, rest);
      ArrivesCost(k, ts, e.left, at);
      CostLevel(k + 1, at[1..]);
      TailExactly(ts, Print(e.left, k), [Word(e.op)] + tail, at, at[1..], rest, |Print(e.right, k + 1)|);
      assert at[1..] == tail;
      Only(e.left, k, at);
      SuccessArrives(k + 1, tail, e.right, rest);
      Only(e.right, k + 1, rest);
      KnownOp(k, e.op);
    }
  }

  lemma KnownOp(k: nat, op: string)
    requires op in Ops(k)
    ensures op in ["or", "and", "+", "-", "*", "/"]
  {
  }

  lemma NotEnough(ts: Tokens, rest: Tokens, n: nat, m: nat)
    requires |ts| == |rest| + n && n < m
    ensures !Took(ts, rest, m)
  {
  }

  /** The tokens before and after a word add up, so the first part ends where it was printed to end. */
  lemma TailExactly(ts: Tokens, front: Tokens, end: Tokens, at: Tokens, after: Tokens, rest: Tokens, n: nat)
    requires ts == front + end && |end| == 1 + n + |rest|
    requires Took(ts, at, |front|) && at != [] && after == at[1..] && Took(after, rest, n)
    ensures at == end
  {
  }

  lemma OnlyNot(e: Expr, rest: Tokens)
    requires e.Not? && Arrives(NOT, Body(e) + rest, e, rest)
    ensures PrintableBody(e)
    decreases e, 0
  {
    hide Print, Arrives, ParseLevel, Printable;
    Words();
    var ts := Body(e) + rest;
    ArrivesMeans(NOT, ts, e, rest);
    NegationShape(ts);
    assert ts[1..] == Print(e.operand, COMPARE) + rest;
    SuccessArrives(COMPARE, ts[1..], e.operand, rest);
    Only(e.operand, COMPARE, rest);
  }

  /** The operand before what makes a comparison, and the tokens from there on. */
  lemma CompareFirst(e: Expr, ts: Tokens, rest: Tokens) returns (first: Expr, at: Tokens)
    requires LevelOf(e) == COMPARE && Arrives(COMPARE, ts, e, rest) && |ts| == |Body(e)| + |rest|
    ensures ParseLevel(ADD, ts) == Success(first, at) && AtComparison(at) && Comparison(first, at) == Success(e, rest)
    ensures Arrives(ADD, ts, first, at) && Took(ts, at, |Print(first, ADD)|)
  {
    hide Print, Body, Arrives, ParseLevel, Comparison, Took, AtComparison;
    ArrivesMeans(COMPARE, ts, e, rest);
    var p := ParseLevel(ADD, ts);
    first, at := p.value, p.rest;
    CostLevel(ADD, ts);
    ComparisonShape(first, at);
    SuccessArrives(ADD, ts, first, at);
    PrintSize(e, ADD);
    if !AtComparison(at) {
      NotEnough(ts, rest, |Body(e)|, |Body(e)| + 2);
    }
  }

  /** Which branch made the comparison is seen by what it is. */
  lemma WhichBranch(left: Expr, ts: Tokens)
    requires AtComparison(ts) && Comparison(left, ts).Success?
    ensures var e := Comparison(left, ts).value;
            && (Is(ts, "is") <==> e.IsNull?) && (Is(ts, "between") <==> e.Between?) && (Is(ts, "in") <==> e.In?)
            && (Is(ts, "like") <==> e.Like?) && (e.Binary? <==> ts != [] && Lower(ts[0].value) in COMPARISONS)
  {
    hide ParseLevel, Items, Lower;
  }

  lemma OnlyCompare(e: Expr, rest: Tokens)
    requires e.Binary? && LevelOf(e) == COMPARE && Arrives(COMPARE, Body(e) + rest, e, rest)
    ensures PrintableBody(e)
    decreases e, 0
  {
    hide Print, Body, Arrives, ParseLevel, Comparison, Took, AtComparison, Printable, Lower, Word;
    var ts := Body(e) + rest;
    var first, at := CompareFirst(e, ts, rest);
    WhichBranch(first, at);
    OperatorBranch(first, at);
    var tail := Print(e.right, ADD) + rest;
    CompareBody(e, rest);
    CostLevel(ADD, at[1..]);
    TailExactly(ts, Print(e.left, ADD), [Word(e.op)] + tail, at, at[1..], rest, |Print(e.right, ADD)|);
    assert at[1..] == tail;
    Only(e.left, ADD, at);
    SuccessArrives(ADD, tail, e.right, rest);
    Only(e.right, ADD, rest);
  }

  lemma OnlyLike(e: Expr, rest: Tokens)
    requires e.Like? && Arrives(COMPARE, Body(e) + rest, e, rest)
    ensures PrintableBody(e)
    decreases e, 0
  {
    hide Print, Body, Arrives, ParseLevel, Comparison, Took, AtComparison, Printable, Lower;
    var ts := Body(e) + rest;
    var first, at := CompareFirst(e, ts, rest);
    WhichBranch(first, at);
    LikeBranch(first, at);
    var tail := Print(e.pattern, ADD) + rest;
    LikeBody(e, rest);
    CostLevel(ADD, at[1..]);
    TailExactly(ts, Print(e.value, ADD), [Token(Keyword, "like")] + tail, at, at[1..], rest, |Print(e.pattern, ADD)|);
    assert at[1..] == tail;
    Only(e.value, ADD, at);
    SuccessArrives(ADD, tail, e.pattern, rest);
    Only(e.pattern, ADD, rest);
  }

  lemma IsNullBody(e: Expr, rest: Tokens) returns (tail: Tokens)
    requires e.IsNull?
    ensures Body(e) + rest == Print(e.value, ADD) + tail && |tail| == (if e.negated then 3 else 2) + |rest|
  {
    hide Print;
    tail := [Token(Identifier, "is")] + (if e.negated then [Token(Keyword, "not")] else []) + [Token(NullLiteral, "null")] + rest;
    assert Body(e) + rest == Print(e.value, ADD) + tail;
  }

  lemma OnlyIsNull(e: Expr, rest: Tokens)
    requires e.IsNull? && Arrives(COMPARE, Body(e) + rest, e, rest)
    ensures PrintableBody(e)
    decreases e, 0
  {
    hide Print, Body, Arrives, ParseLevel, Comparison, Took, AtComparison, Printable, Lower;
    var ts := Body(e) + rest;
    var first, at := CompareFirst(e, ts, rest);
    WhichBranch(first, at);
    IsBranch(first, at);
    var tail := IsNullBody(e, rest);
    TookExactly(Print(e.value, ADD), tail, at, |Print(e.value, ADD)|);
    Only(e.value, ADD, at);
  }

  lemma OnlyBetween(e: Expr, rest: Tokens)
    requires e.Between? && Arrives(COMPARE, Body(e) + rest, e, rest)
    ensures PrintableBody(e)
    decreases e, 0
  {
    hide Print, Body, Arrives, ParseLevel, Comparison, Took, AtComparison, Printable, Lower;
    var ts := Body(e) + rest;
    var first, at := CompareFirst(e, ts, rest);
    WhichBranch(first, at);
    BetweenBranch(first, at);
    var upper := Print(e.upper, ADD) + rest;
    var lower := Print(e.lower, ADD) + ([Token(Keyword, "and")] + upper);
    BetweenBody(e, rest);
    var next := ParseLevel(ADD, at[1..]).rest;
    CostLevel(ADD, at[1..]);
    CostLevel(ADD, next[1..]);
    var n, m := |Print(e.lower, ADD)|, |Print(e.upper, ADD)|;
    TookFirst(next, 1);
    TookBoth(at[1..], next, next[1..], n, 1);
    TookBoth(at[1..], next[1..], rest, n + 1, m);
    TailExactly(ts, Print(e.value, ADD), [Token(Keyword, "between")] + lower, at, at[1..], rest, n + 1 + m);
    assert at[1..] == lower;
    TailExactly(lower, Print(e.lower, ADD), [Token(Keyword, "and")] + upper, next, next[1..], rest, m);
    assert next[1..] == upper;
    Only(e.value, ADD, at);
    SuccessArrives(ADD, lower, e.lower, next);
    Only(e.lower, ADD, next);
    SuccessArrives(ADD, upper, e.upper, rest);
    Only(e.upper, ADD, rest);
  }

  lemma InBody(e: Expr, rest: Tokens)
    requires e.In?
    ensures Body(e) + rest
         == Print(e.value, ADD) + ([Token(Keyword, "in")] + ([OPEN] + (PrintItems(false, e.values) + ([CLOSE] + rest))))
  {
    hide Print, PrintItems;
  }

  lemma OnlyIn(e: Expr, rest: Tokens)
    requires e.In? && Arrives(COMPARE, Body(e) + rest, e, rest)
    ensures PrintableBody(e)
    decreases e, 0
  {
    hide Print, PrintItems, Body, Arrives, ParseLevel, Items, Comparison, Took, AtComparison, Printable, PrintableItems, Lower;
    var ts := Body(e) + rest;
    var first, at := CompareFirst(e, ts, rest);
    WhichBranch(first, at);
    InBranch(first, at);
    var items := PrintItems(false, e.values) + ([CLOSE] + rest);
    InBody(e, rest);
    ListCost(false, at[1..], e.values, rest);
    TailExactly(ts, Print(e.value, ADD), [Token(Keyword, "in")] + ([OPEN] + items), at, at[1..], rest,
                1 + |PrintItems(false, e.values)| + 1);
    assert at[1..] == [OPEN] + items && at[1..][1..] == items;
    Only(e.value, ADD, at);
    OnlyList(false, e.values, items, rest);
  }

  /** A list in parentheses, read from its opening one on. */
  predicate ReadsList(starred: bool, ts: Tokens, es: seq<Expr>, rest: Tokens) {
    && ts != []
    && if Is(ts[1..], ")") then es == [] && rest == ts[1..][1..] else Items(starred, ts[1..]) == Success(es, rest)
  }

  lemma ListCost(starred: bool, ts: Tokens, es: seq<Expr>, rest: Tokens)
    requires ReadsList(starred, ts, es, rest)
    ensures Took(ts, rest, 1 + |PrintItems(starred, es)| + 1)
  {
    hide Items, PrintItems, Lower;
    TookFirst(ts, 1);
    if Is(ts[1..], ")") {
      NoItems(starred);
      TookFirst(ts, 2);
    } else {
      CostItems(starred, ts[1..]);
      TookBoth(ts, ts[1..], rest, 1, |PrintItems(starred, es)| + 1);
    }
  }

  lemma OnlyList(starred: bool, es: seq<Expr>, items: Tokens, rest: Tokens)
    requires items == PrintItems(starred, es) + ([CLOSE] + rest) && ReadsList(starred, [OPEN] + items, es, rest)
    ensures PrintableItems(starred, es)
    decreases es, 1
  {
    hide Items, PrintItems, PrintableItem, Lower;
    assert ([OPEN] + items)[1..] == items;
    if es == [] {
      NoItems(starred);
      Nothing();
    } else {
      OnlyItems(starred, es, rest);
      SomeItems(starred, es);
      assert items[0] == PrintItems(starred, es)[0];
    }
  }

  lemma Nothing()
    ensures !Is([], ")")
  {
  }

  lemma SomeItems(starred: bool, es: seq<Expr>)
    requires es != []
    ensures PrintItems(starred, es) != []
  {
    hide Print;
    PrintNotEmpty(es[0], OR);
  }

  lemma OnlyFunction(e: Expr, rest: Tokens)
    requires e.Function? && Arrives(TERM, Body(e) + rest, e, rest)
    ensures PrintableBody(e)
    decreases e, 0
  {
    hide Print, PrintItems, Arrives, ParseLevel, Items, PrintableItems, Lower;
    var items := PrintItems(true, e.args) + ([CLOSE] + rest);
    var ts := [Token(Identifier, e.name)] + ([OPEN] + items);
    assert Body(e) + rest == ts;
    ArrivesMeans(TERM, ts, e, rest);
    TermLevel(ts);
    CallBranch(ts);
    assert ts[1..] == [OPEN] + items && ts[2..] == items && ts[1..][1..] == items;
    OnlyList(true, e.args, items, rest);
  }

  lemma {:induction false} OnlyItems(starred: bool, es: seq<Expr>, rest: Tokens)
    requires es != [] && Items(starred, PrintItems(starred, es) + ([CLOSE] + rest)) == Success(es, rest)
    ensures forall i | 0 <= i < |es| :: PrintableItem(starred, es[i])
    decreases es, 0
  {
    hide Print, PrintItems, PrintItem, ParseLevel, Items, ItemAt, PrintableItem, Took, Lower;
    var ts, e := PrintItems(starred, es) + ([CLOSE] + rest), es[0];
    ItemsBranch(starred, ts);
    ItemCost(starred, ts);
    var p := ItemAt(starred, ts);
    assert p.value == e;
    if Is(p.rest, ",") {
      var q := Items(starred, p.rest[1..]);
      CostItems(starred, p.rest[1..]);
      var more := es[1..];
      assert q.value == more && q.rest == rest && es == [e] + more;
      var tail := PrintItems(starred, more) + ([CLOSE] + rest);
      MoreItems(starred, es, [CLOSE] + rest);
      TailExactly(ts, PrintItem(starred, e), [COMMA] + tail, p.rest, p.rest[1..], rest, |PrintItems(starred, more)| + 1);
      assert p.rest[1..] == tail;
      OnlyItem(starred, e, p.rest);
      OnlyItems(starred, more, rest);
      forall i | 0 <= i < |es| ensures PrintableItem(starred, es[i]) {
        if i > 0 { assert es[i] == more[i - 1]; }
      }
    } else {
      assert es == [e] && p.rest[1..] == rest;
      OneItem(starred, es);
      TookExactly(PrintItem(starred, e), [CLOSE] + rest, p.rest, |PrintItem(starred, e)|);
      OnlyItem(starred, e, p.rest);
    }
  }

  lemma MoreItems(starred: bool, es: seq<Expr>, end: Tokens)
    requires |es| > 1
    ensures PrintItems(starred, es) + end == PrintItem(starred, es[0]) + ([COMMA] + (PrintItems(starred, es[1..]) + end))
  {
    hide Print;
  }

  lemma OneItem(starred: bool, es: seq<Expr>)
    requires |es| == 1
    ensures PrintItems(starred, es) == PrintItem(starred, es[0])
  {
    hide Print;
  }

  lemma OnlyItem(starred: bool, e: Expr, more: Tokens)
    requires ItemAt(starred, PrintItem(starred, e) + more) == Success(e, more)
    ensures PrintableItem(starred, e)
    decreases e, 4
  {
    hide Print, ParseLevel, Printable, Arrives;
    if !(starred && e == Column(None, "*")) {
      SuccessArrives(OR, Print(e, OR) + more, e, more);
      Only(e, OR, more);
    }
  }

  /**
   For every expression, before anything that cannot belong to it: parsing what is printed gives the very
   same expression and consumes exactly those tokens, if and only if no name or literal stands where the
   parser takes it for `not` or for a closing parenthesis.
   */
  lemma RoundTrip(e: Expr, rest: Tokens)
    requires Ends(OR, rest) && !AtOp(OR, rest)
    ensures ParseLevel(OR, Print(e, OR) + rest) == Success(e, rest) <==> Printable(e, OR)
  {
    hide ParseLevel, Print, Printable, Arrives;
    var ts := Print(e, OR) + rest;
    if Printable(e, OR) {
      ReadsWhole(e, rest);
    }
    if ParseLevel(OR, ts) == Success(e, rest) {
      SuccessArrives(OR, ts, e, rest);
      Only(e, OR, rest);
    }
  }
}
