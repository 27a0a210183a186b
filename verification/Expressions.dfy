/** Expressions, the tokens they are written with, and what the parser makes of a list of tokens. */
module Expressions {
  import opened Options

  datatype Kind =
    | Keyword | Identifier | Operator | IntLiteral | FloatLiteral | StringLiteral | BooleanLiteral | NullLiteral
    | Comma | Dot | Star | LParen | RParen

  datatype Token = Token(kind: Kind, value: string)

  type Tokens = seq<Token>

  /** A literal keeps its token; what number it stands for plays no part in parsing. */
  datatype Expr =
    | Literal(kind: Kind, text: string)
    | Column(table: Option<string>, column: string)
    | Function(name: string, args: seq<Expr>)
    | Binary(left: Expr, op: string, right: Expr)
    | Not(operand: Expr)
    | IsNull(value: Expr, negated: bool)
    | Between(value: Expr, lower: Expr, upper: Expr)
    | In(value: Expr, values: seq<Expr>)
    | Like(value: Expr, pattern: Expr)

  /** A parse failure, or a result and the tokens not yet consumed. */
  datatype Parse<T> = Failure | Success(value: T, rest: Tokens)

  function LowerChar(c: char): char {
    if 'A' <= c <= 'Z' then c - 'A' + 'a' else c
  }

  const CAPITALS := "ABCDEFGHIJKLMNOPQRSTUVWXYZ"
  const SMALL := "abcdefghijklmnopqrstuvwxyz"

  /** Every capital letter becomes the small one, and nothing else changes. */
  lemma Letters()
    ensures |CAPITALS| == |SMALL| && forall i | 0 <= i < |CAPITALS| :: LowerChar(CAPITALS[i]) == SMALL[i]
    ensures forall c | c !in CAPITALS :: LowerChar(c) == c
  {
    forall c | 'A' <= c <= 'Z' ensures c in CAPITALS {
      assert CAPITALS[c as int - 'A' as int] == c;
    }
  }

  function Lower(s: string): (r: string)
    ensures |r| == |s|
  {
    seq(|s|, i requires 0 <= i < |s| => LowerChar(s[i]))
  }

  /** The next token is spelled like `word`, in any case, whatever kind of token it is. */
  predicate Is(ts: Tokens, word: string) {
    ts != [] && Lower(ts[0].value) == word
  }

  function Expect(ts: Tokens, word: string): (r: Option<Tokens>)
    ensures r.Some? ==> |r.value| < |ts|
  {
    if Is(ts, word) then Some(ts[1..]) else None
  }

  const COMPARISONS := ["!=", ">=", "<=", "=", ">", "<"]

  predicate IsName(k: Kind) {
    k == Identifier || k == Keyword
  }

  predicate IsLiteral(k: Kind) {
    k == IntLiteral || k == FloatLiteral || k == BooleanLiteral || k == StringLiteral || k == NullLiteral
  }

  // The grammar's levels, loosest first.
  const OR := 0
  const AND := 1
  const NOT := 2
  const COMPARE := 3
  const ADD := 4
  const MUL := 5
  const TERM := 6

  /** The operators of a level whose operators associate to the left. */
  function Ops(k: nat): seq<string> {
    if k == OR then ["or"] else if k == AND then ["and"] else if k == ADD then ["+", "-"]
    else if k == MUL then ["*", "/"] else []
  }

  predicate AtOp(k: nat, ts: Tokens) {
    ts != [] && Lower(ts[0].value) in Ops(k)
  }

  function ParseLevel(k: nat, ts: Tokens): (r: Parse<Expr>)
    requires k <= TERM
    ensures r.Success? ==> |r.rest| < |ts|
    decreases |ts|, 10 - k
  {
    if k == TERM then Term(ts)
    else if k == NOT && Is(ts, "not") then
      match ParseLevel(COMPARE, ts[1..])
      case Failure => Failure
      case Success(e, rest) => Success(Not(e), rest)
    else
      match ParseLevel(k + 1, ts)
      case Failure => Failure
      case Success(e, rest) =>
        if k == COMPARE then Comparison(e, rest) else Loop(k, e, rest)
  }

  /** Takes in operators of level `k`, each with its right operand. */
  function Loop(k: nat, left: Expr, ts: Tokens): (r: Parse<Expr>)
    requires k < TERM
    ensures r.Success? ==> |r.rest| <= |ts|
    decreases |ts|, 0
  {
    if !AtOp(k, ts) then Success(left, ts)
    else
      match ParseLevel(k + 1, ts[1..])
      case Failure => Failure
      case Success(right, rest) => Loop(k, Binary(left, Lower(ts[0].value), right), rest)
  }

  /** At most one comparison after its left operand. */
  function Comparison(left: Expr, ts: Tokens): (r: Parse<Expr>)
    ensures r.Success? ==> |r.rest| <= |ts|
    decreases |ts|, 0
  {
    if Is(ts, "is") then
      var negated := Is(ts[1..], "not");
      match Expect(if negated then ts[2..] else ts[1..], "null")
      case None => Failure
      case Some(rest) => Success(IsNull(left, negated), rest)
    else if Is(ts, "between") then
      match ParseLevel(ADD, ts[1..])
      case Failure => Failure
      case Success(lower, rest) =>
        if !Is(rest, "and") then Failure
        else
          match ParseLevel(ADD, rest[1..])
          case Failure => Failure
          case Success(upper, rest') => Success(Between(left, lower, upper), rest')
    else if Is(ts, "in") then
      if !Is(ts[1..], "(") then Failure
      else if Is(ts[2..], ")") then Success(In(left, []), ts[3..])
      else
        match Items(false, ts[2..])
        case Failure => Failure
        case Success(values, rest) => Success(In(left, values), rest)
    else if Is(ts, "like") then
      match ParseLevel(ADD, ts[1..])
      case Failure => Failure
      case Success(pattern, rest) => Success(Like(left, pattern), rest)
    else if ts != [] && Lower(ts[0].value) in COMPARISONS then
      match ParseLevel(ADD, ts[1..])
      case Failure => Failure
      case Success(right, rest) => Success(Binary(left, Lower(ts[0].value), right), rest)
    else Success(left, ts)
  }

  function Term(ts: Tokens): (r: Parse<Expr>)
    ensures r.Success? ==> |r.rest| < |ts|
    decreases |ts|, 0
  {
    if ts == [] then Failure
    else if IsName(ts[0].kind) && |ts| > 1 && ts[1].kind == LParen then
      var name := Lower(ts[0].value);
      if !Is(ts[1..], "(") then Failure
      else if Is(ts[2..], ")") then Success(Function(name, []), ts[3..])
      else
        match Items(true, ts[2..])
        case Failure => Failure
        case Success(args, rest) => Success(Function(name, args), rest)
    else if IsName(ts[0].kind) then
      var name := Lower(ts[0].value);
      if |ts| > 1 && ts[1].kind == Dot then
        if |ts| > 2 && ts[2].kind == Identifier then Success(Column(Some(name), Lower(ts[2].value)), ts[3..])
        else Failure
      else Success(Column(None, name), ts[1..])
    else if IsLiteral(ts[0].kind) then Success(Literal(ts[0].kind, ts[0].value), ts[1..])
    else if ts[0].kind == LParen then
      match ParseLevel(OR, ts[1..])
      case Failure => Failure
      case Success(e, rest) => if Is(rest, ")") then Success(e, rest[1..]) else Failure
    else Failure
  }

  /** Expressions up to the closing parenthesis; a star may stand for an argument of a function. */
  function Items(starred: bool, ts: Tokens): (r: Parse<seq<Expr>>)
    ensures r.Success? ==> |r.rest| < |ts|
    decreases |ts|, 20
  {
    match if starred && ts != [] && ts[0].kind == Star then Success(Column(None, "*"), ts[1..]) else ParseLevel(OR, ts)
    case Failure => Failure
    case Success(e, rest) =>
      if Is(rest, ",") then
        match Items(starred, rest[1..])
        case Failure => Failure
        case Success(es, rest') => Success([e] + es, rest')
      else if Is(rest, ")") then Success([e], rest[1..])
      else Failure
  }

  // --- Printing -------------------------------------------------------------------------------------------------

  const LITERALS := {IntLiteral, FloatLiteral, StringLiteral, BooleanLiteral, NullLiteral}

  predicate Compares(op: string) {
    match op
    case "=" => true
    case "!=" => true
    case "<" => true
    case "<=" => true
    case ">" => true
    case _ => op == ">="
  }

  function LevelOf(e: Expr): nat {
    match e
    case Binary(_, op, _) =>
      if op == "or" then OR else if op == "and" then AND else if Compares(op) then COMPARE
      else if op == "+" || op == "-" then ADD else MUL
    case Not(_) => NOT
    case IsNull(_, _) => COMPARE
    case Between(_, _, _) => COMPARE
    case In(_, _) => COMPARE
    case Like(_, _) => COMPARE
    case _ => TERM
  }

  function Word(w: string): Token {
    Token(if w == "*" then Star else if w == "or" || w == "and" then Keyword else Operator, w)
  }

  const OPEN := Token(LParen, "(")
  const CLOSE := Token(RParen, ")")
  const COMMA := Token(Kind.Comma, ",")

  /** The tokens of an expression where level `k` is expected: in parentheses only if it binds more loosely. */
  function Print(e: Expr, k: nat): Tokens
    decreases e, 1
  {
    if LevelOf(e) < k then [OPEN] + Body(e) + [CLOSE] else Body(e)
  }

  function Body(e: Expr): Tokens
    decreases e, 0
  {
    match e
    case Literal(kind, text) => [Token(kind, text)]
    case Column(None, column) => [Token(Identifier, column)]
    case Column(Some(table), column) => [Token(Identifier, table), Token(Dot, "."), Token(Identifier, column)]
    case Function(name, args) => [Token(Identifier, name), OPEN] + PrintItems(true, args) + [CLOSE]
    case Binary(left, op, right) =>
      var k := LevelOf(e);
      Print(left, if k == COMPARE then ADD else k) + [Word(op)] + Print(right, k + 1)
    case Not(operand) => [Token(Keyword, "not")] + Print(operand, COMPARE)
    case IsNull(value, negated) =>
      Print(value, ADD) + [Token(Identifier, "is")] + (if negated then [Token(Keyword, "not")] else [])
      + [Token(NullLiteral, "null")]
    case Between(value, lower, upper) =>
      Print(value, ADD) + [Token(Keyword, "between")] + Print(lower, ADD) + [Token(Keyword, "and")] + Print(upper, ADD)
    case In(value, values) =>
      Print(value, ADD) + [Token(Keyword, "in"), OPEN] + PrintItems(false, values) + [CLOSE]
    case Like(value, pattern) => Print(value, ADD) + [Token(Keyword, "like")] + Print(pattern, ADD)
  }

  function PrintItems(starred: bool, es: seq<Expr>): Tokens
    decreases es, 0
  {
    if es == [] then []
    else
      (if starred && es[0] == Column(None, "*") then [Token(Star, "*")] else Print(es[0], OR))
      + if |es| == 1 then [] else [COMMA] + PrintItems(starred, es[1..])
  }

  /**
   What is printed for level `k` can be read back. Names are in lower case, as the parser makes them. And the
   parser tests the first token of what may be a negation against `not`, and the first one of a list against
   `)`, whatever kind of token it is: there, and only there, a name or literal must not be spelled like that.
   */
  predicate Printable(e: Expr, k: nat)
    decreases e, 1
  {
    PrintableBody(e) && (k <= NOT || LevelOf(e) < k ==> StartsWell(e))
  }

  /** Not taken for a negation. */
  predicate StartsWell(e: Expr) {
    LevelOf(e) > NOT ==> !Is(Body(e), "not")
  }

  predicate PrintableBody(e: Expr)
    decreases e, 0
  {
    match e
    case Literal(kind, text) => kind in LITERALS
    case Column(None, column) => Lower(column) == column
    case Column(Some(table), column) => Lower(table) == table && Lower(column) == column
    case Function(name, args) => Lower(name) == name && PrintableItems(true, args)
    case Binary(left, op, right) =>
      var k := LevelOf(e);
      && (Compares(op) || op in ["or", "and", "+", "-", "*", "/"])
      && Printable(left, if k == COMPARE then ADD else k) && Printable(right, k + 1)
    case Not(operand) => Printable(operand, COMPARE)
    case IsNull(value, _) => Printable(value, ADD)
    case Between(value, lower, upper) => Printable(value, ADD) && Printable(lower, ADD) && Printable(upper, ADD)
    case In(value, values) => Printable(value, ADD) && PrintableItems(false, values)
    case Like(value, pattern) => Printable(value, ADD) && Printable(pattern, ADD)
  }

  predicate PrintableItem(starred: bool, e: Expr)
    decreases e, 2
  {
    (starred && e == Column(None, "*")) || Printable(e, OR)
  }

  predicate PrintableItems(starred: bool, es: seq<Expr>)
    decreases es, 0
  {
    && (forall i | 0 <= i < |es| :: PrintableItem(starred, es[i]))
    && !Is(PrintItems(starred, es), ")")
  }
}
