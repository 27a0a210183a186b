/** The grammar of expressions, level by level, and the proof that the parser takes nothing else. */
module ExpressionGrammar {
  import opened Options
  import opened Expressions
  import opened ExpressionUnique

  /** A token spelled like a word, in any case of letters. */
  predicate Spelled(t: Token, w: string) {
    Lower(t.value) == w
  }

  predicate IsNameToken(t: Token, name: string) {
    (t.kind == Identifier || t.kind == Keyword) && Lower(t.value) == name
  }

  /** The operators that associate to the left, and their levels. */
  predicate LeftOperator(k: nat, op: string) {
    || (k == OR && op == "or") || (k == AND && op == "and")
    || (k == ADD && (op == "+" || op == "-")) || (k == MUL && (op == "*" || op == "/"))
  }

  /** The tokens are those of the expression, where an expression of the level is expected. */
  ghost predicate Derives(k: nat, ts: Tokens, e: Expr)
    requires k <= TERM
    decreases |ts|, 10 - k
  {
    if k == TERM then DerivesTerm(ts, e)
    else
      || Derives(k + 1, ts, e)
      || (k == NOT && e.Not? && |ts| >= 1 && Spelled(ts[0], "not") && Derives(COMPARE, ts[1..], e.operand))
      || (k == COMPARE && exists i | 0 <= i < |ts| :: DerivesComparison(ts, i, e))
      || (e.Binary? && LeftOperator(k, e.op) && exists i | 0 <= i < |ts| :: DerivesBinary(k, k, ts, i, e))
  }

  /** An operand of level `k`, the operator at place `i`, and an operand of the next tighter level. */
  ghost predicate DerivesBinary(k: nat, left: nat, ts: Tokens, i: nat, e: Expr)
    requires k < TERM && left <= TERM && i < |ts|
    decreases |ts|, 0
  {
    e.Binary? && Spelled(ts[i], e.op) && Derives(left, ts[..i], e.left) && Derives(k + 1, ts[i + 1..], e.right)
  }

  /** One comparison, the word or operator that makes it at place `i`. */
  ghost predicate DerivesComparison(ts: Tokens, i: nat, e: Expr)
    requires i < |ts|
    decreases |ts|, 1
  {
    var rest := ts[i + 1..];
    match e
    case IsNull(value, negated) =>
      && Derives(ADD, ts[..i], value) && Spelled(ts[i], "is")
      && if negated then |rest| == 2 && Spelled(rest[0], "not") && Spelled(rest[1], "null")
         else |rest| == 1 && Spelled(rest[0], "null")
    case Between(value, lower, upper) =>
      && Derives(ADD, ts[..i], value) && Spelled(ts[i], "between")
      && exists j | 0 <= j < |rest| ::
           Derives(ADD, rest[..j], lower) && Spelled(rest[j], "and") && Derives(ADD, rest[j + 1..], upper)
    case In(value, values) => Derives(ADD, ts[..i], value) && Spelled(ts[i], "in") && DerivesList(false, rest, values)
    case Like(value, pattern) => Derives(ADD, ts[..i], value) && Spelled(ts[i], "like") && Derives(ADD, rest, pattern)
    case Binary(_, op, _) => Compares(op) && DerivesBinary(COMPARE, ADD, ts, i, e)
    case _ => false
  }

  ghost predicate DerivesTerm(ts: Tokens, e: Expr)
    decreases |ts|, 0
  {
    || (e.Literal? && ts == [Token(e.kind, e.text)] && e.kind in LITERALS)
    || (e.Column? && e.table.None? && |ts| == 1 && IsNameToken(ts[0], e.column))
    || (e.Column? && e.table.Some? && |ts| == 3 && IsNameToken(ts[0], e.table.value) && ts[1].kind == Dot
        && ts[2].kind == Identifier && Lower(ts[2].value) == e.column)
    || (e.Function? && |ts| >= 3 && IsNameToken(ts[0], e.name) && ts[1].kind == LParen && DerivesList(true, ts[1..], e.args))
    || (|ts| >= 2 && ts[0].kind == LParen && Spelled(ts[|ts| - 1], ")") && Derives(OR, ts[1..|ts| - 1], e))
  }

  /** A list in parentheses. */
  ghost predicate DerivesList(starred: bool, ts: Tokens, es: seq<Expr>)
    decreases |ts|, 0
  {
    && |ts| >= 2 && Spelled(ts[0], "(") && Spelled(ts[|ts| - 1], ")")
    && if es == [] then |ts| == 2 else DerivesItems(starred, ts[1..|ts| - 1], es)
  }

  /** Items with commas between them; a star may stand for an argument of a function. */
  ghost predicate DerivesItems(starred: bool, ts: Tokens, es: seq<Expr>)
    decreases |ts|, 20
  {
    && es != []
    && if |es| == 1 then DerivesItem(starred, ts, es[0])
       else exists i | 0 <= i < |ts| ::
              DerivesItem(starred, ts[..i], es[0]) && Spelled(ts[i], ",") && DerivesItems(starred, ts[i + 1..], es[1..])
  }

  ghost predicate DerivesItem(starred: bool, ts: Tokens, e: Expr)
    decreases |ts|, 19
  {
    (starred && e == Column(None, "*") && |ts| == 1 && ts[0].kind == Star) || Derives(OR, ts, e)
  }

  // --- The parser takes only that --------------------------------------------------------------------------------------

  /** The tokens that were taken before `rest`. */
  function Taken(ts: Tokens, rest: Tokens): Tokens
    requires |rest| <= |ts|
  {
    ts[..|ts| - |rest|]
  }

  /** `rest` is what is left of `ts`. */
  predicate Left(ts: Tokens, rest: Tokens) {
    |rest| <= |ts| && rest == ts[|ts| - |rest|..]
  }

  lemma {:induction false} LeftTail(ts: Tokens, n: nat)
    requires n <= |ts|
    ensures Left(ts, ts[n..]) && Taken(ts, ts[n..]) == ts[..n]
  {
  }

  lemma {:induction false} LeftBoth(a: Tokens, b: Tokens, c: Tokens)
    requires Left(a, b) && Left(b, c)
    ensures Left(a, c) && Taken(a, c) == Taken(a, b) + Taken(b, c)
  {
  }

  lemma {:induction false} Looser(k: nat, j: nat, ts: Tokens, e: Expr)
    requires k <= j <= TERM && Derives(j, ts, e)
    ensures Derives(k, ts, e)
    decreases j - k
  {
    if k < j { Looser(k + 1, j, ts, e); }
  }

  lemma {:induction false} SoundLevel(k: nat, ts: Tokens)
    requires k <= TERM && ParseLevel(k, ts).Success?
    ensures var p := ParseLevel(k, ts); Left(ts, p.rest) && Derives(k, Taken(ts, p.rest), p.value)
    decreases |ts|, 10 - k
  {
    hide Derives, Loop, Comparison, Term, Lower, Left, DerivesTerm;
    var p := ParseLevel(k, ts);
    if k == TERM {
      SoundTerm(ts);
      DerivesAtTerm(Taken(ts, p.rest), p.value);
    } else if k == NOT && Is(ts, "not") {
      SoundNot(ts);
    } else {
      SoundLevel(k + 1, ts);
      var q := ParseLevel(k + 1, ts);
      if k == COMPARE {
        SoundComparison(q.value, ts, q.rest);
      } else {
        LevelBelow(k, Taken(ts, q.rest), q.value);
        SoundLoop(k, q.value, ts, q.rest);
      }
    }
  }

  lemma {:induction false} DerivesAtTerm(ts: Tokens, e: Expr)
    requires DerivesTerm(ts, e)
    ensures Derives(TERM, ts, e)
  {
    hide DerivesTerm;
  }

  lemma {:induction false} LevelBelow(k: nat, ts: Tokens, e: Expr)
    requires k < TERM && Derives(k + 1, ts, e)
    ensures Derives(k, ts, e)
  {
    hide DerivesComparison, DerivesBinary, DerivesTerm;
  }

  lemma {:induction false} SoundNot(ts: Tokens)
    requires Is(ts, "not") && ParseLevel(NOT, ts).Success?
    ensures var p := ParseLevel(NOT, ts); Left(ts, p.rest) && Derives(NOT, Taken(ts, p.rest), p.value)
    decreases |ts|, 0
  {
    hide Derives, Loop, Comparison, Lower, ParseLevel;
    NegationShape(ts);
    var q := ParseLevel(COMPARE, ts[1..]);
    SoundLevel(COMPARE, ts[1..]);
    assert Taken(ts, q.rest)[1..] == Taken(ts[1..], q.rest);
    DerivesNegation(Taken(ts, q.rest), q.value);
  }

  lemma {:induction false} DerivesNegation(ts: Tokens, operand: Expr)
    requires |ts| >= 1 && Spelled(ts[0], "not") && Derives(COMPARE, ts[1..], operand)
    ensures Derives(NOT, ts, Not(operand))
  {
    hide DerivesComparison, DerivesBinary, DerivesTerm, Lower;
  }

  lemma {:induction false} SoundLoop(k: nat, left: Expr, start: Tokens, ts: Tokens)
    requires k < TERM && Left(start, ts) && Derives(k, Taken(start, ts), left) && Loop(k, left, ts).Success?
    ensures var p := Loop(k, left, ts); Left(start, p.rest) && Derives(k, Taken(start, p.rest), p.value)
    decreases |ts|, 0
  {
    hide Derives, ParseLevel, Lower, Taken, LeftOperator;
    if AtOp(k, ts) {
      SoundLevel(k + 1, ts[1..]);
      var q := ParseLevel(k + 1, ts[1..]);
      var e := Binary(left, Lower(ts[0].value), q.value);
      SoundUpTo(start, ts, q.rest);
      KnownOperator(k, Lower(ts[0].value));
      DerivesOne(k, Taken(start, q.rest), |Taken(start, ts)|, e);
      SoundLoop(k, e, start, q.rest);
    }
  }

  lemma {:induction false} KnownOperator(k: nat, op: string)
    requires op in Ops(k)
    ensures LeftOperator(k, op)
  {
  }

  lemma {:induction false} DerivesOne(k: nat, ts: Tokens, i: nat, e: Expr)
    requires k < TERM && i < |ts| && e.Binary? && LeftOperator(k, e.op)
    requires Spelled(ts[i], e.op) && Derives(k, ts[..i], e.left) && Derives(k + 1, ts[i + 1..], e.right)
    ensures Derives(k, ts, e)
  {
    assert DerivesBinary(k, k, ts, i, e) by { hide Derives; }
    hide DerivesComparison, DerivesBinary, DerivesTerm, Lower;
  }

  lemma {:induction false} DerivesCompared(ts: Tokens, i: nat, e: Expr)
    requires i < |ts| && DerivesComparison(ts, i, e)
    ensures Derives(COMPARE, ts, e)
  {
    hide DerivesComparison, DerivesBinary, DerivesTerm, Lower;
  }

  lemma {:induction false} KnownComparison(op: string)
    requires op in COMPARISONS
    ensures Compares(op)
  {
  }

  lemma {:induction false} SoundComparison(left: Expr, start: Tokens, ts: Tokens)
    requires Left(start, ts) && Derives(ADD, Taken(start, ts), left) && Comparison(left, ts).Success?
    ensures var p := Comparison(left, ts); Left(start, p.rest) && Derives(COMPARE, Taken(start, p.rest), p.value)
    decreases |ts|, 2
  {
    hide Derives, DerivesComparison, ParseLevel, Comparison, Items, Lower, Taken;
    if Is(ts, "is") {
      SoundIs(left, start, ts);
    } else if Is(ts, "between") {
      SoundBetween(left, start, ts);
    } else if Is(ts, "in") {
      SoundIn(left, start, ts);
    } else if Is(ts, "like") {
      LikeBranch(left, ts);
      SoundOperand(start, ts);
      var q := ParseLevel(ADD, ts[1..]);
      ComparedLike(left, q.value, Taken(start, q.rest), |Taken(start, ts)|);
    } else if AtComparison(ts) {
      OperatorBranch(left, ts);
      SoundOperand(start, ts);
      var q := ParseLevel(ADD, ts[1..]);
      ComparedBy(Binary(left, Lower(ts[0].value), q.value), Taken(start, q.rest), |Taken(start, ts)|);
    } else {
      NoBranch(left, ts);
      LevelBelow(COMPARE, Taken(start, ts), left);
    }
  }

  /** A word behind what was taken so far, and the operand after it. */
  lemma {:induction false} SoundOperand(start: Tokens, ts: Tokens)
    requires Left(start, ts) && ts != [] && ParseLevel(ADD, ts[1..]).Success?
    ensures
      var q := ParseLevel(ADD, ts[1..]);
      var n := |Taken(start, ts)|;
      && Left(start, q.rest) && n < |Taken(start, q.rest)|
      && Taken(start, q.rest)[..n] == Taken(start, ts) && Taken(start, q.rest)[n] == ts[0]
      && Taken(start, q.rest)[n + 1..] == Taken(ts[1..], q.rest) && Left(ts[1..], q.rest)
      && Derives(ADD, Taken(ts[1..], q.rest), q.value)
    decreases |ts|, 0
  {
    hide Derives, ParseLevel;
    SoundLevel(ADD, ts[1..]);
    SoundUpTo(start, ts, ParseLevel(ADD, ts[1..]).rest);
  }

  lemma {:induction false} ComparedLike(value: Expr, pattern: Expr, ts: Tokens, i: nat)
    requires i < |ts| && Derives(ADD, ts[..i], value) && Spelled(ts[i], "like") && Derives(ADD, ts[i + 1..], pattern)
    ensures Derives(COMPARE, ts, Like(value, pattern))
  {
    assert DerivesComparison(ts, i, Like(value, pattern)) by { hide Derives; }
    hide Derives, DerivesComparison;
    DerivesCompared(ts, i, Like(value, pattern));
  }

  lemma {:induction false} ComparedBy(e: Expr, ts: Tokens, i: nat)
    requires e.Binary? && i < |ts| && e.op in COMPARISONS
    requires Derives(ADD, ts[..i], e.left) && Spelled(ts[i], e.op) && Derives(ADD, ts[i + 1..], e.right)
    ensures Derives(COMPARE, ts, e)
  {
    KnownComparison(e.op);
    assert DerivesComparison(ts, i, e) by { hide Derives; }
    hide Derives, DerivesComparison;
    DerivesCompared(ts, i, e);
  }

  lemma {:induction false} SoundIs(left: Expr, start: Tokens, ts: Tokens)
    requires Left(start, ts) && Derives(ADD, Taken(start, ts), left) && Is(ts, "is") && Comparison(left, ts).Success?
    ensures var p := Comparison(left, ts); Left(start, p.rest) && Derives(COMPARE, Taken(start, p.rest), p.value)
  {
    hide Derives, ParseLevel, Items, Lower;
    var p := Comparison(left, ts);
    var negated := Is(ts[1..], "not");
    var m := if negated then 3 else 2;
    assert Is(if negated then ts[2..] else ts[1..], "null");
    assert |ts| >= m && p.rest == ts[m..];
    LeftTail(ts, m);
    LeftBoth(start, ts, ts[m..]);
    var all, n := Taken(start, p.rest), |Taken(start, ts)|;
    assert all == Taken(start, ts) + ts[..m];
    assert all[..n] == Taken(start, ts) && all[n] == ts[0] && all[n + 1..] == ts[1..m];
    assert DerivesComparison(all, n, p.value);
    DerivesCompared(all, n, p.value);
  }

  lemma {:induction false} SoundBetween(left: Expr, start: Tokens, ts: Tokens)
    requires Left(start, ts) && Derives(ADD, Taken(start, ts), left) && Is(ts, "between") && Comparison(left, ts).Success?
    ensures var p := Comparison(left, ts); Left(start, p.rest) && Derives(COMPARE, Taken(start, p.rest), p.value)
    decreases |ts|, 1
  {
    hide Derives, DerivesComparison, ParseLevel, Comparison, Items, Lower, Taken;
    BetweenBranch(left, ts);
    SoundOperand(start, ts);
    var q := ParseLevel(ADD, ts[1..]);
    SoundOperand(start, q.rest);
    SoundOperand(ts[1..], q.rest);
    var r := ParseLevel(ADD, q.rest[1..]);
    SoundUpTo(start, ts, r.rest);
    ComparedBetween(Between(left, q.value, r.value), Taken(start, r.rest), |Taken(start, ts)|, |Taken(ts[1..], q.rest)|);
  }

  /** The token at which `ts` begins, and what was taken before and after it. */
  lemma {:induction false} SoundUpTo(start: Tokens, ts: Tokens, rest: Tokens)
    requires ts != [] && Left(start, ts) && Left(ts[1..], rest)
    ensures var n := |Taken(start, ts)|;
            && Left(start, rest) && n < |Taken(start, rest)| && Taken(start, rest)[n] == ts[0]
            && Taken(start, rest)[..n] == Taken(start, ts) && Taken(start, rest)[n + 1..] == Taken(ts[1..], rest)
  {
    LeftTail(ts, 1);
    LeftBoth(start, ts, ts[1..]);
    LeftBoth(start, ts[1..], rest);
    assert Taken(start, rest) == Taken(start, ts) + [ts[0]] + Taken(ts[1..], rest);
  }

  lemma {:induction false} ComparedBetween(e: Expr, ts: Tokens, i: nat, j: nat)
    requires e.Between? && i < |ts| && j < |ts[i + 1..]|
    requires Derives(ADD, ts[..i], e.value) && Spelled(ts[i], "between")
    requires var rest := ts[i + 1..];
             Derives(ADD, rest[..j], e.lower) && Spelled(rest[j], "and") && Derives(ADD, rest[j + 1..], e.upper)
    ensures Derives(COMPARE, ts, e)
  {
    assert DerivesComparison(ts, i, e) by { hide Derives; }
    hide Derives, DerivesComparison;
    DerivesCompared(ts, i, e);
  }

  lemma {:induction false} SoundIn(left: Expr, start: Tokens, ts: Tokens)
    requires Left(start, ts) && Derives(ADD, Taken(start, ts), left) && Is(ts, "in") && Comparison(left, ts).Success?
    ensures var p := Comparison(left, ts); Left(start, p.rest) && Derives(COMPARE, Taken(start, p.rest), p.value)
    decreases |ts|, 1
  {
    hide Derives, DerivesComparison, DerivesList, ParseLevel, Comparison, Items, Lower;
    InBranch(left, ts);
    var p := Comparison(left, ts);
    SoundList(false, ts[1..], p.value.values, p.rest);
    SoundUpTo(start, ts, p.rest);
    var all, n := Taken(start, p.rest), |Taken(start, ts)|;
    ComparedIn(p.value, all, n);
  }

  lemma {:induction false} ComparedIn(e: Expr, ts: Tokens, i: nat)
    requires e.In? && i < |ts| && Derives(ADD, ts[..i], e.value) && Spelled(ts[i], "in") && DerivesList(false, ts[i + 1..], e.values)
    ensures Derives(COMPARE, ts, e)
  {
    assert DerivesComparison(ts, i, e) by { hide Derives, DerivesList; }
    hide Derives, DerivesComparison;
    DerivesCompared(ts, i, e);
  }

  /** A list from its opening parenthesis on. */
  lemma {:induction false} SoundList(starred: bool, ts: Tokens, es: seq<Expr>, rest: Tokens)
    requires |ts| >= 1 && Is(ts, "(")
    requires if Is(ts[1..], ")") then es == [] && |ts| >= 2 && rest == ts[2..] else Items(starred, ts[1..]) == Success(es, rest)
    ensures Left(ts, rest) && DerivesList(starred, Taken(ts, rest), es)
    decreases |ts|, 1
  {
    hide Items, Lower, DerivesItems;
    if Is(ts[1..], ")") {
      assert Taken(ts, rest) == ts[..2];
    } else {
      SoundItems(starred, ts[1..]);
      LeftTail(ts, 1);
      var close := Before(ts[1..], rest);
      LeftBoth(ts, ts[1..], rest);
      assert Taken(ts, rest) == [ts[0]] + Taken(ts[1..], rest);
      assert Taken(ts, rest)[1..|Taken(ts, rest)| - 1] == Taken(ts[1..], close);
    }
  }

  /** What is left with the token before it. */
  function Before(ts: Tokens, rest: Tokens): Tokens
    requires |rest| < |ts|
  {
    ts[|ts| - |rest| - 1..]
  }

  lemma {:induction false} SoundItems(starred: bool, ts: Tokens)
    requires Items(starred, ts).Success?
    ensures
      var p := Items(starred, ts);
      && Left(ts, p.rest) && |p.rest| < |ts| && p.value != []
      && Is(Before(ts, p.rest), ")") && DerivesItems(starred, Taken(ts, Before(ts, p.rest)), p.value)
    decreases |ts|, 20
  {
    hide Derives, DerivesItem, ParseLevel, Items, ItemAt, Lower;
    ItemsBranch(starred, ts);
    SoundItem(starred, ts);
    var p, q := Items(starred, ts), ItemAt(starred, ts);
    if Is(q.rest, ",") {
      SoundItems(starred, q.rest[1..]);
      MoreItemsTaken(starred, ts, q.value, q.rest, p.value, p.rest);
    } else {
      assert Before(ts, p.rest) == q.rest;
    }
  }

  lemma {:induction false} MoreItemsTaken(starred: bool, ts: Tokens, e: Expr, mid: Tokens, es: seq<Expr>, rest: Tokens)
    requires Left(ts, mid) && mid != [] && Is(mid, ",") && DerivesItem(starred, Taken(ts, mid), e)
    requires |es| >= 2 && es[0] == e && Left(mid[1..], rest) && |rest| < |mid[1..]|
    requires Is(Before(mid[1..], rest), ")") && DerivesItems(starred, Taken(mid[1..], Before(mid[1..], rest)), es[1..])
    ensures Left(ts, rest) && |rest| < |ts|
    ensures Is(Before(ts, rest), ")") && DerivesItems(starred, Taken(ts, Before(ts, rest)), es)
  {
    hide Derives, DerivesItem, Lower;
    LeftTail(mid, 1);
    LeftBoth(ts, mid, mid[1..]);
    LeftBoth(ts, mid[1..], rest);
    var end := Before(ts, rest);
    assert end == Before(mid[1..], rest);
    var all, i := Taken(ts, end), |Taken(ts, mid)|;
    assert all[..i] == Taken(ts, mid) && all[i] == mid[0] && all[i + 1..] == Taken(mid[1..], end);
  }

  lemma {:induction false} SoundItem(starred: bool, ts: Tokens)
    requires ItemAt(starred, ts).Success?
    ensures var q := ItemAt(starred, ts); Left(ts, q.rest) && DerivesItem(starred, Taken(ts, q.rest), q.value)
    decreases |ts|, 19
  {
    hide Derives, ParseLevel;
    if starred && ts != [] && ts[0].kind == Star {
      LeftTail(ts, 1);
    } else {
      SoundLevel(OR, ts);
    }
  }

  lemma {:induction false} SoundTerm(ts: Tokens)
    requires Term(ts).Success?
    ensures var p := Term(ts); Left(ts, p.rest) && DerivesTerm(Taken(ts, p.rest), p.value)
    decreases |ts|, 2
  {
    hide Derives, DerivesList, ParseLevel, Items, Lower;
    var p := Term(ts);
    if IsName(ts[0].kind) && |ts| > 1 && ts[1].kind == LParen {
      SoundCall(ts);
    } else if ts[0].kind == LParen {
      SoundParenthesis(ts);
    } else {
      var n := |ts| - |p.rest|;
      assert p.rest == ts[n..];
      LeftTail(ts, n);
      assert Taken(ts, p.rest) == ts[..n];
    }
  }

  lemma {:induction false} SoundCall(ts: Tokens)
    requires |ts| > 1 && IsName(ts[0].kind) && ts[1].kind == LParen && Term(ts).Success?
    ensures var p := Term(ts); Left(ts, p.rest) && DerivesTerm(Taken(ts, p.rest), p.value)
    decreases |ts|, 0
  {
    hide Derives, DerivesList, ParseLevel, Items, Lower;
    CallBranch(ts);
    var p := Term(ts);
    assert Is(ts[1..], "(");
    SoundList(true, ts[1..], p.value.args, p.rest);
    ListLength(true, Taken(ts[1..], p.rest), p.value.args);
    LeftTail(ts, 1);
    LeftBoth(ts, ts[1..], p.rest);
    assert Taken(ts, p.rest) == [ts[0]] + Taken(ts[1..], p.rest);
    assert Taken(ts, p.rest)[1..] == Taken(ts[1..], p.rest);
  }

  lemma {:induction false} ListLength(starred: bool, ts: Tokens, es: seq<Expr>)
    requires DerivesList(starred, ts, es)
    ensures |ts| >= 2
  {
  }

  lemma {:induction false} SoundParenthesis(ts: Tokens)
    requires ts != [] && ts[0].kind == LParen && Term(ts).Success?
    ensures var p := Term(ts); Left(ts, p.rest) && DerivesTerm(Taken(ts, p.rest), p.value)
    decreases |ts|, 0
  {
    hide Derives, DerivesList, ParseLevel, Items, Lower;
    ParenthesisBranch(ts);
    SoundLevel(OR, ts[1..]);
    var q := ParseLevel(OR, ts[1..]);
    var rest := q.rest[1..];
    LeftTail(ts, 1);
    LeftTail(q.rest, 1);
    LeftBoth(ts, ts[1..], q.rest);
    LeftBoth(ts, q.rest, rest);
    var all := Taken(ts, rest);
    assert all == [ts[0]] + Taken(ts[1..], q.rest) + [q.rest[0]];
    assert all[1..|all| - 1] == Taken(ts[1..], q.rest);
  }

  /**
   Whatever the parser takes for an expression is one of the grammar: the tokens it consumed are those of the very
   expression it returns.
   */
  lemma {:induction false} OnlyTheGrammar(ts: Tokens)
    requires ParseLevel(OR, ts).Success?
    ensures var p := ParseLevel(OR, ts);
            |p.rest| < |ts| && p.rest == ts[|ts| - |p.rest|..] && Derives(OR, ts[..|ts| - |p.rest|], p.value)
  {
    hide ParseLevel, Derives;
    SoundLevel(OR, ts);
  }

  /** A name behind a dot that the tokenizer made a keyword is refused. */
  lemma {:induction false} KeywordBehindDot(ts: Tokens)
    requires |ts| >= 3 && IsName(ts[0].kind) && ts[1].kind == Dot && ts[2].kind != Identifier && !Is(ts, "not")
    ensures ParseLevel(OR, ts) == Failure
  {
    hide Loop, Comparison, Items, Lower;
    assert Term(ts) == Failure;
    assert ParseLevel(MUL, ts) == Failure;
    assert ParseLevel(ADD, ts) == Failure;
    assert ParseLevel(COMPARE, ts) == Failure;
    assert ParseLevel(NOT, ts) == Failure;
    assert ParseLevel(AND, ts) == Failure;
  }
}
