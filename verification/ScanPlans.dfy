/** Choosing an index for a WHERE clause, and how what an index scan returns compares with a full scan. */
module ScanPlans {
  import opened Options
  import K = IndexKeys
  import opened ByteCodec
  import BPlusTreeModel

  type Location = BPlusTreeModel.Location

  /** Values; doubles are taken as reals. */
  datatype Value = Null | Int(i: int32) | Float(r: real) | Bool(b: bool) | Text(s: Bytes)

  type Row = map<string, Value>

  /** A column, a literal, or any other operand, with the tables its columns name. */
  datatype Operand =
    | Column(table: Option<string>, name: string)
    | Literal(v: Value)
    | Computed(id: int, tables: seq<Option<string>>)

  datatype Expr =
    | And(left: Expr, right: Expr)
    | Cmp(l: Operand, op: string, r: Operand)
    | Between(value: Operand, lower: Operand, upper: Operand)
    | Other(id: int, tables: seq<Option<string>>)

  /** What the rest of the engine makes of other operands and expressions, of comparisons that involve text, and of doubles as bits. */
  datatype Meaning = Meaning(computed: (int, Row) -> Value, other: (int, Row) -> bool, text: (Value, Value) -> int,
                             bits: real -> bits64)

  // --- Evaluation ------------------------------------------------------------------------------------------------

  function GetValue(m: Meaning, o: Operand, row: Row): Value {
    match o
    case Column(_, name) => if name in row then row[name] else Null
    case Literal(v) => v
    case Computed(id, _) => m.computed(id, row)
  }

  function Number(v: Value): real {
    match v
    case Int(i) => i as real
    case Float(r) => r
    case Bool(b) => if b then 1.0 else 0.0
    case _ => 0.0
  }

  function CompareAny(m: Meaning, a: Value, b: Value): int {
    if a.Text? || b.Text? then m.text(a, b)
    else if Number(a) < Number(b) then -1
    else if Number(a) > Number(b) then 1
    else 0
  }

  predicate Compare(m: Meaning, a: Value, op: string, b: Value) {
    if a.Null? && b.Null? then op == "="
    else if a.Null? || b.Null? then op == "!="
    else
      var c := CompareAny(m, a, b);
      if op == "=" then c == 0 else if op == "!=" then c != 0 else if op == ">" then c == 1
      else if op == "<" then c == -1 else if op == ">=" then c >= 0 else if op == "<=" then c <= 0 else false
  }

  predicate EvaluateBool(m: Meaning, e: Expr, row: Row) {
    match e
    case And(l, r) => EvaluateBool(m, l, row) && EvaluateBool(m, r, row)
    case Cmp(l, op, r) => Compare(m, GetValue(m, l, row), op, GetValue(m, r, row))
    case Between(v, lo, hi) =>
      Compare(m, GetValue(m, v, row), ">=", GetValue(m, lo, row)) && Compare(m, GetValue(m, v, row), "<=", GetValue(m, hi, row))
    case Other(id, _) => m.other(id, row)
  }

  predicate Passes(m: Meaning, filter: seq<Expr>, row: Row) {
    forall e | e in filter :: EvaluateBool(m, e, row)
  }

  // --- Planning ----------------------------------------------------------------------------------------------------

  function FlatAnd(e: Expr): seq<Expr> {
    if e.And? then FlatAnd(e.left) + FlatAnd(e.right) else [e]
  }

  lemma {:induction false} FlatAndMeaning(m: Meaning, e: Expr, row: Row)
    ensures Passes(m, FlatAnd(e), row) <==> EvaluateBool(m, e, row)
  {
    if e.And? {
      FlatAndMeaning(m, e.left, row);
      FlatAndMeaning(m, e.right, row);
    }
  }

  predicate Names(t: Option<string>, table: string) {
    t.None? || t.value == table
  }

  predicate OperandBelongs(o: Operand, table: string) {
    match o
    case Column(t, _) => Names(t, table)
    case Literal(_) => true
    case Computed(_, ts) => forall t | t in ts :: Names(t, table)
  }

  /** Of BETWEEN only the tested value is looked at. */
  predicate BelongsToTable(e: Expr, table: string) {
    match e
    case And(l, r) => BelongsToTable(l, table) && BelongsToTable(r, table)
    case Cmp(l, _, r) => OperandBelongs(l, table) && OperandBelongs(r, table)
    case Between(v, _, _) => OperandBelongs(v, table)
    case Other(_, ts) => forall t | t in ts :: Names(t, table)
  }

  /** The columns with their types, and those with an index of their own. */
  datatype Schema = Schema(types: map<string, string>, indexed: set<string>)

  /** A range of index keys. */
  datatype Range = Range(column: string, start: Value, end: Option<Value>, fromMin: bool, startOpen: bool, endOpen: bool)

  datatype Plan =
    | Full(filter: seq<Expr>)
    | Indexed(range: Range, filter: seq<Expr>)

  /** Truncation toward zero. */
  function Truncate(r: real): int {
    if r >= 0.0 then r.Floor else -((-r).Floor)
  }

  function Coerce(v: Value, colType: string): Value {
    if colType == "float" && v.Int? then Float(v.i as real)
    else if colType == "int" && v.Float? && -0x8000_0000 <= Truncate(v.r) < 0x8000_0000 then Int(Truncate(v.r))
    else v
  }

  /** The range of the column's index that an expression selects, if it has one. */
  function TryIndex(s: Schema, e: Expr): Option<Range> {
    match e
    case Cmp(Column(_, c), op, Literal(v)) =>
      if c !in s.types || c !in s.indexed then None
      else
        var k := Coerce(v, s.types[c]);
        if op == "=" then Some(Range(c, k, Some(k), false, false, false))
        else if op == ">" || op == ">=" then Some(Range(c, k, None, false, op == ">", false))
        else if op == "<" || op == "<=" then Some(Range(c, k, Some(k), true, false, op == "<"))
        else None
    case Between(Column(_, c), Literal(lo), Literal(hi)) =>
      if c !in s.types || c !in s.indexed then None
      else Some(Range(c, Coerce(lo, s.types[c]), Some(Coerce(hi, s.types[c])), false, false, false))
    case _ => None
  }

  /** The conjuncts that concern the table; the first of them with an index is answered by it, the others filter. */
  function Decide(s: Schema, table: string, where: Option<Expr>): Plan {
    if where.None? then Full([])
    else DecideAmong(s, Concerning(FlatAnd(where.value), table), 0)
  }

  function Concerning(es: seq<Expr>, table: string): (r: seq<Expr>)
    ensures forall e :: e in r <==> e in es && BelongsToTable(e, table)
  {
    if es == [] then []
    else (if BelongsToTable(es[0], table) then [es[0]] else []) + Concerning(es[1..], table)
  }

  function DecideAmong(s: Schema, es: seq<Expr>, i: nat): Plan
    requires i <= |es|
    decreases |es| - i
  {
    if i == |es| then Full(es)
    else
      match TryIndex(s, es[i])
      case Some(g) => Indexed(g, es[..i] + es[i + 1..])
      case None => DecideAmong(s, es, i + 1)
  }

  // --- Index ranges ----------------------------------------------------------------------------------------------------

  function ToDb(m: Meaning, v: Value): K.DbObject {
    match v
    case Null => K.DbNull
    case Int(i) => K.DbInt(i)
    case Float(r) => K.DbDouble(m.bits(r))
    case Bool(b) => K.DbBool(b)
    case Text(s) => K.DbString(s)
  }

  /** The place of a value's key in the order of keys. */
  ghost function KeyRank(m: Meaning, v: Value): int {
    if K.Fits([ToDb(m, v)]) then K.Rank(K.KeyBytes([ToDb(m, v)])) else -1
  }

  function Cell(row: Row, c: string): Value {
    if c in row then row[c] else Null
  }

  ghost predicate KeyInRange(m: Meaning, g: Range, k: int) {
    && (if g.fromMin then K.Rank(Zeros(K.KEY_SIZE)) <= k
        else if g.startOpen then KeyRank(m, g.start) < k else KeyRank(m, g.start) <= k)
    && (if g.end.None? then k <= K.Rank(K.Ones(K.KEY_SIZE))
        else if g.endOpen then k < KeyRank(m, g.end.value) else k <= KeyRank(m, g.end.value))
  }

  ghost predicate InRange(m: Meaning, g: Range, row: Row) {
    KeyInRange(m, g, KeyRank(m, Cell(row, g.column)))
  }

  /** The rows a plan returns. */
  ghost predicate Selects(m: Meaning, p: Plan, row: Row) {
    (p.Indexed? ==> InRange(m, p.range, row)) && Passes(m, p.filter, row)
  }

  lemma IntFits(a: int32)
    ensures K.Fits([K.DbInt(a)])
  {
    assert K.TupleBytes([K.DbInt(a)]) == K.ValueBytes(K.DbInt(a)) + K.TupleBytes([]);
  }

  lemma CompareInts(a: int32, b: int32)
    ensures K.CompareTuples([K.DbInt(a)], [K.DbInt(b)]) == K.Sign(a as int - b as int)
  {
    assert K.CompareTuples([K.DbInt(a)][1..], [K.DbInt(b)][1..]) == 0;
  }

  /** Keys of integers are ordered as the integers. */
  lemma IntKeys(m: Meaning, a: int32, b: int32)
    ensures KeyRank(m, Int(a)) < KeyRank(m, Int(b)) <==> a < b
    ensures KeyRank(m, Int(a)) == KeyRank(m, Int(b)) <==> a == b
    ensures 0 <= KeyRank(m, Int(a)) <= K.Rank(K.Ones(K.KEY_SIZE))
  {
    hide K.Rank, K.KeyBytes, K.TupleBytes, K.Fits, K.Compare, K.CompareTuples;
    IntFits(a);
    IntFits(b);
    K.KeyOrder([K.DbInt(a)], [K.DbInt(b)]);
    K.KeyOrder([K.DbInt(b)], [K.DbInt(a)]);
    CompareInts(a, b);
    CompareInts(b, a);
    K.HighestRank(K.KEY_SIZE);
    K.RankBound(K.KeyBytes([K.DbInt(a)]));
  }

  /** The key of NULL is that of the smallest integer, and the smallest of all. */
  lemma NullKey(m: Meaning)
    ensures KeyRank(m, Null) == KeyRank(m, Int(-0x8000_0000)) == K.Rank(Zeros(K.KEY_SIZE)) == 0
  {
    hide K.Rank;
    IntFits(-0x8000_0000);
    K.NullIsSmallestInt();
    NullBytes();
    K.LowestRank(K.KEY_SIZE);
  }

  lemma NullBytes()
    ensures K.Fits([K.DbNull]) && K.KeyBytes([K.DbNull]) == Zeros(K.KEY_SIZE)
  {
    assert K.TupleBytes([K.DbNull]) == [0] + K.TupleBytes([]);
  }

  // --- What a range selects --------------------------------------------------------------------------------------------

  const LOW: int32 := -0x8000_0000

  /** The whole number whose key stands for a value: NULL counts as the smallest integer, a fraction is cut off. */
  function AsKey(v: Value): int {
    match v
    case Null => LOW
    case Int(i) => i
    case Float(r) => Truncate(r)
    case Bool(b) => if b then 1 else 0
    case Text(_) => 0
  }

  /** A literal that is no string; a double must fit an integer once cut, the conversion being undefined otherwise. */
  predicate Keyed(v: Value) {
    !v.Text? && LOW <= AsKey(v) < 0x8000_0000
  }

  predicate KeyedLiterals(e: Expr) {
    match e
    case Cmp(_, _, Literal(v)) => Keyed(v)
    case Between(_, Literal(lo), Literal(hi)) => Keyed(lo) && Keyed(hi)
    case _ => false
  }

  predicate Holds(a: int, op: string, b: int) {
    if op == "=" then a == b else if op == ">" then a > b else if op == ">=" then a >= b
    else if op == "<" then a < b else op == "<=" && a <= b
  }

  /** What the range of an expression makes of a value of the column. */
  predicate IndexAnswer(e: Expr, v: Value) {
    match e
    case Cmp(_, op, Literal(k)) => Holds(AsKey(v), op, AsKey(k))
    case Between(_, Literal(lo), Literal(hi)) => AsKey(lo) <= AsKey(v) <= AsKey(hi)
    case _ => false
  }

  /** Every value of an integer column is an integer or NULL. */
  predicate Typed(s: Schema, row: Row) {
    forall c | c in s.types && s.types[c] == "int" :: Cell(row, c).Null? || Cell(row, c).Int?
  }

  lemma BoolKey(m: Meaning, b: bool)
    ensures KeyRank(m, Bool(b)) == KeyRank(m, Int(if b then 1 else 0))
  {
    var i: int32 := if b then 1 else 0;
    assert K.TupleBytes([K.DbBool(b)]) == K.ValueBytes(K.DbBool(b)) + K.TupleBytes([]);
    assert K.TupleBytes([K.DbInt(i)]) == K.ValueBytes(K.DbInt(i)) + K.TupleBytes([]);
  }

  lemma KeyOfLiteral(m: Meaning, v: Value)
    requires Keyed(v)
    ensures KeyRank(m, Coerce(v, "int")) == KeyRank(m, Int(AsKey(v)))
  {
    hide KeyRank;
    match v
    case Null => NullKey(m);
    case Bool(b) => BoolKey(m, b);
    case _ =>
  }

  lemma KeysCompare(m: Meaning, a: Value, b: Value)
    requires (a.Null? || a.Int?) && Keyed(b)
    ensures var x, y := KeyRank(m, a), KeyRank(m, Coerce(b, "int"));
            && (x < y <==> AsKey(a) < AsKey(b)) && (x == y <==> AsKey(a) == AsKey(b))
            && 0 <= x <= K.Rank(K.Ones(K.KEY_SIZE))
  {
    hide KeyRank, K.Rank;
    NullKey(m);
    KeyOfLiteral(m, b);
    IntKeys(m, AsKey(a), AsKey(b));
  }

  /** The range of a conjunct on an integer column compares whole numbers. */
  lemma RangeMeaning(m: Meaning, s: Schema, e: Expr, row: Row)
    requires TryIndex(s, e).Some? && KeyedLiterals(e) && Typed(s, row)
    requires s.types[TryIndex(s, e).value.column] == "int"
    ensures
      var g := TryIndex(s, e).value;
      InRange(m, g, row) <==> IndexAnswer(e, Cell(row, g.column))
  {
    hide KeyRank, K.Rank, Coerce, AsKey;
    NullKey(m);
    var g := TryIndex(s, e).value;
    var v := Cell(row, g.column);
    match e
    case Cmp(_, _, Literal(k)) => KeysCompare(m, v, k);
    case Between(_, Literal(lo), Literal(hi)) => KeysCompare(m, v, lo); KeysCompare(m, v, hi);
  }

  /**
   The values for which an index answers a comparison wrongly. With NULL on either side only `NULL = NULL`
   is true; otherwise it is the whole number left of the literal, if the fraction was cut off on the wrong side.
   */
  predicate WrongFor(op: string, v: Value, k: Value) {
    if v.Null? || k.Null? then Holds(AsKey(v), op, AsKey(k)) != (v.Null? && k.Null? && op == "=")
    else
      AsKey(v) == AsKey(k) &&
      var cut := Number(k) - AsKey(k) as real;
      if op == "=" then cut != 0.0
      else if op == ">" || op == "<=" then cut < 0.0
      else (op == "<" || op == ">=") && cut > 0.0
  }

  /** For BETWEEN: in the range, but beyond one of its ends as written. */
  predicate WrongBetween(v: Value, lo: Value, hi: Value) {
    && AsKey(lo) <= AsKey(v) <= AsKey(hi)
    && (v.Null? || lo.Null? || hi.Null? || WrongFor(">=", v, lo) || WrongFor("<=", v, hi))
  }

  predicate Wrong(e: Expr, v: Value) {
    match e
    case Cmp(_, op, Literal(k)) => WrongFor(op, v, k)
    case Between(_, Literal(lo), Literal(hi)) => WrongBetween(v, lo, hi)
    case _ => false
  }

  lemma TruncateBounds(r: real)
    ensures r >= 0.0 ==> Truncate(r) as real <= r < Truncate(r) as real + 1.0
    ensures r <= 0.0 ==> Truncate(r) as real - 1.0 < r <= Truncate(r) as real
  {
  }

  lemma ComparisonDiffers(m: Meaning, v: Value, op: string, k: Value)
    requires (v.Null? || v.Int?) && Keyed(k) && op in ["=", ">", ">=", "<", "<="]
    ensures Holds(AsKey(v), op, AsKey(k)) != Compare(m, v, op, k) <==> WrongFor(op, v, k)
  {
    if k.Float? { TruncateBounds(k.r); }
  }

  /** An index answers a conjunct as the evaluator does, exactly for the values that are not `Wrong`. */
  lemma AnswerDiffers(m: Meaning, s: Schema, e: Expr, row: Row)
    requires TryIndex(s, e).Some? && KeyedLiterals(e) && Typed(s, row)
    requires s.types[TryIndex(s, e).value.column] == "int"
    ensures
      var v := Cell(row, TryIndex(s, e).value.column);
      IndexAnswer(e, v) != EvaluateBool(m, e, row) <==> Wrong(e, v)
  {
    hide Compare, AsKey, Number;
    var v := Cell(row, TryIndex(s, e).value.column);
    match e
    case Cmp(_, op, Literal(k)) => ComparisonDiffers(m, v, op, k);
    case Between(_, Literal(lo), Literal(hi)) => BetweenDiffers(m, v, lo, hi);
  }

  lemma BetweenDiffers(m: Meaning, v: Value, lo: Value, hi: Value)
    requires (v.Null? || v.Int?) && Keyed(lo) && Keyed(hi)
    ensures (AsKey(lo) <= AsKey(v) <= AsKey(hi)) != (Compare(m, v, ">=", lo) && Compare(m, v, "<=", hi))
       <==> WrongBetween(v, lo, hi)
  {
    ComparisonDiffers(m, v, ">=", lo);
    ComparisonDiffers(m, v, "<=", hi);
    if lo.Float? { TruncateBounds(lo.r); }
    if hi.Float? { TruncateBounds(hi.r); }
  }

  // --- The chosen conjunct ---------------------------------------------------------------------------------------------

  /** The first conjunct from `i` on that an index answers. */
  function Chosen(s: Schema, es: seq<Expr>, i: nat): (c: nat)
    requires i <= |es| && DecideAmong(s, es, i).Indexed?
    ensures c < |es| && TryIndex(s, es[c]) == Some(DecideAmong(s, es, i).range)
    ensures DecideAmong(s, es, i).filter == es[..c] + es[c + 1..]
    decreases |es| - i
  {
    if TryIndex(s, es[i]).Some? then i else Chosen(s, es, i + 1)
  }

  lemma {:induction false} FullKeepsAll(s: Schema, es: seq<Expr>, i: nat)
    requires i <= |es| && DecideAmong(s, es, i).Full?
    ensures DecideAmong(s, es, i).filter == es
    decreases |es| - i
  {
    if i < |es| { FullKeepsAll(s, es, i + 1); }
  }

  lemma PassesSplit(m: Meaning, es: seq<Expr>, c: nat, row: Row)
    requires c < |es|
    ensures Passes(m, es, row) <==> EvaluateBool(m, es[c], row) && Passes(m, es[..c] + es[c + 1..], row)
  {
    var rest := es[..c] + es[c + 1..];
    forall e ensures e in es <==> e == es[c] || e in rest {
      if e in es {
        var k :| 0 <= k < |es| && es[k] == e;
        assert k < c ==> rest[k] == e;
        assert k > c ==> rest[k - 1] == e;
      }
    }
  }

  /** The conjunct that an index answers, if any, compares an integer column with literals that are no strings. */
  predicate Plannable(s: Schema, table: string, where: Expr) {
    var es := Concerning(FlatAnd(where), table);
    DecideAmong(s, es, 0).Indexed? ==>
      KeyedLiterals(es[Chosen(s, es, 0)]) && s.types[DecideAmong(s, es, 0).range.column] == "int"
  }

  /** The conjuncts a plan leaves out: those with a column qualified by anything but the table's name. */
  predicate PassesDropped(m: Meaning, table: string, where: Expr, row: Row) {
    forall e | e in FlatAnd(where) && !BelongsToTable(e, table) :: EvaluateBool(m, e, row)
  }

  /**
   A row that the plan gets wrong: it passes the filter of the plan, and either the index takes it in and a
   conjunct rejects it, or the index leaves it out and every conjunct accepts it.
   */
  predicate Misjudged(m: Meaning, s: Schema, table: string, where: Expr, row: Row)
    requires Plannable(s, table, where)
  {
    var es := Concerning(FlatAnd(where), table);
    var p := DecideAmong(s, es, 0);
    && Passes(m, p.filter, row)
    && if p.Full? then !PassesDropped(m, table, where, row)
       else
         var e := es[Chosen(s, es, 0)];
         var v := Cell(row, p.range.column);
         if Wrong(e, v) then IndexAnswer(e, v) || PassesDropped(m, table, where, row)
         else IndexAnswer(e, v) && !PassesDropped(m, table, where, row)
  }

  lemma WhereSplits(m: Meaning, table: string, where: Expr, row: Row)
    ensures EvaluateBool(m, where, row) <==>
              Passes(m, Concerning(FlatAnd(where), table), row) && PassesDropped(m, table, where, row)
  {
    hide EvaluateBool, BelongsToTable, FlatAnd;
    FlatAndMeaning(m, where, row);
  }

  /** Row by row, the plan returns what the WHERE clause selects, but for the rows it misjudges. */
  lemma PlanMeaning(m: Meaning, s: Schema, table: string, where: Expr, row: Row)
    requires Plannable(s, table, where) && Typed(s, row)
    ensures Selects(m, Decide(s, table, Some(where)), row) != EvaluateBool(m, where, row) <==> Misjudged(m, s, table, where, row)
  {
    hide InRange, EvaluateBool, KeyedLiterals, Typed, TryIndex, Passes, PassesDropped, IndexAnswer, Wrong, FlatAnd, Concerning;
    var es := Concerning(FlatAnd(where), table);
    WhereSplits(m, table, where, row);
    var p := DecideAmong(s, es, 0);
    if p.Full? {
      FullKeepsAll(s, es, 0);
    } else {
      var c := Chosen(s, es, 0);
      PassesSplit(m, es, c, row);
      RangeMeaning(m, s, es[c], row);
      AnswerDiffers(m, s, es[c], row);
    }
  }

  // --- Scanning ----------------------------------------------------------------------------------------------------------

  predicate Before(a: Location, b: Location) {
    a.page < b.page || (a.page == b.page && a.slot < b.slot)
  }

  ghost predicate Increasing(locs: seq<Location>) {
    forall i, j | 0 <= i < j < |locs| :: Before(locs[i], locs[j])
  }

  /** The places of the chosen rows, in the order of a full scan. */
  ghost predicate Lists(locs: seq<Location>, chosen: set<Location>) {
    Increasing(locs) && forall l :: l in locs <==> l in chosen
  }

  lemma {:induction false} ListsOnce(a: seq<Location>, b: seq<Location>, chosen: set<Location>)
    requires Lists(a, chosen) && Lists(b, chosen)
    ensures a == b
    decreases |a|
  {
    if a == [] {
      assert forall k | 0 <= k < |b| :: b[k] in b;
    } else {
      assert a[0] in b && b[0] in a;
      var i :| 0 <= i < |b| && b[i] == a[0];
      var j :| 0 <= j < |a| && a[j] == b[0];
      assert i == 0;
      forall l ensures (l in a[1..] <==> l in chosen - {a[0]}) && (l in b[1..] <==> l in chosen - {a[0]}) {
        assert l in a <==> l == a[0] || l in a[1..];
        assert l in b <==> l == b[0] || l in b[1..];
      }
      ListsOnce(a[1..], b[1..], chosen - {a[0]});
      assert a == [a[0]] + a[1..] && b == [b[0]] + b[1..];
    }
  }

  ghost function ByPlan(m: Meaning, p: Plan, rows: map<Location, Row>): set<Location> {
    set l | l in rows && Selects(m, p, rows[l])
  }

  ghost function ByWhere(m: Meaning, where: Expr, rows: map<Location, Row>): set<Location> {
    set l | l in rows && EvaluateBool(m, where, rows[l])
  }

  /**
   The scan of a plan returns the same rows in the same order as a full scan filtered by the WHERE clause,
   if and only if it misjudges no row of the table.
   */
  lemma PlanExact(m: Meaning, s: Schema, table: string, where: Expr, rows: map<Location, Row>, planned: seq<Location>, filtered: seq<Location>)
    requires Plannable(s, table, where) && forall l | l in rows :: Typed(s, rows[l])
    requires Lists(planned, ByPlan(m, Decide(s, table, Some(where)), rows))
    requires Lists(filtered, ByWhere(m, where, rows))
    ensures planned == filtered <==> forall l | l in rows :: !Misjudged(m, s, table, where, rows[l])
  {
    hide EvaluateBool, Selects, Misjudged, Decide, Plannable, Typed;
    var p := Decide(s, table, Some(where));
    forall l | l in rows
      ensures Misjudged(m, s, table, where, rows[l]) <==> (l in ByPlan(m, p, rows) <==> l !in ByWhere(m, where, rows))
    {
      PlanMeaning(m, s, table, where, rows[l]);
    }
    if forall l | l in rows :: !Misjudged(m, s, table, where, rows[l]) {
      assert ByPlan(m, p, rows) == ByWhere(m, where, rows);
      ListsOnce(planned, filtered, ByPlan(m, p, rows));
    } else {
      var l :| l in rows && Misjudged(m, s, table, where, rows[l]);
      assert l in planned <==> l !in filtered;
    }
  }

  // --- Where the index scan differs ----------------------------------------------------------------------------------------

  const C := Column(None, "c")

  lemma PlanOfOne(s: Schema, table: string, e: Expr, g: Range)
    requires !e.And? && BelongsToTable(e, table) && TryIndex(s, e) == Some(g)
    ensures Decide(s, table, Some(e)) == Indexed(g, [])
  {
    assert FlatAnd(e) == [e];
    assert Concerning([e], table) == [e] + Concerning([], table);
  }

  /** `c < v` on a nullable column returns the rows where `c` is NULL. */
  lemma NullIsLess(m: Meaning, v: int32)
    requires v > -0x8000_0000
    ensures
      var s := Schema(map["c" := "int"], {"c"});
      var where := Cmp(C, "<", Literal(Int(v)));
      Selects(m, Decide(s, "t", Some(where)), map["c" := Null]) && !EvaluateBool(m, where, map["c" := Null])
  {
    var s := Schema(map["c" := "int"], {"c"});
    var where := Cmp(C, "<", Literal(Int(v)));
    PlanOfOne(s, "t", where, Range("c", Int(v), Some(Int(v)), true, false, true));
    hide KeyRank, K.Rank;
    NullKey(m);
    IntKeys(m, -0x8000_0000, v);
  }

  /** `c = 5.5` returns the rows where `c` is 5. */
  lemma FractionIsCut(m: Meaning)
    ensures
      var s := Schema(map["c" := "int"], {"c"});
      var where := Cmp(C, "=", Literal(Float(5.5)));
      Selects(m, Decide(s, "t", Some(where)), map["c" := Int(5)]) && !EvaluateBool(m, where, map["c" := Int(5)])
  {
    var s := Schema(map["c" := "int"], {"c"});
    var where := Cmp(C, "=", Literal(Float(5.5)));
    assert Truncate(5.5) == 5;
    PlanOfOne(s, "t", where, Range("c", Int(5), Some(Int(5)), false, false, false));
  }

  /** A condition on a column qualified by an alias is not applied at all. */
  lemma AliasIsDropped(m: Meaning, s: Schema, v: Value, row: Row)
    ensures
      var where := Cmp(Column(Some("alias"), "c"), "=", Literal(v));
      Decide(s, "t", Some(where)) == Full([]) && Selects(m, Decide(s, "t", Some(where)), row)
  {
    var where := Cmp(Column(Some("alias"), "c"), "=", Literal(v));
    assert FlatAnd(where) == [where];
    assert Concerning([where], "t") == [] + Concerning([], "t");
  }

  // --- The methods ---------------------------------------------------------------------------------------------------------

  method Flatten(exprs: seq<Expr>, e: Expr) returns (all: seq<Expr>)
    ensures all == exprs + FlatAnd(e)
    decreases e
  {
    if e.And? {
      all := Flatten(exprs, e.left);
      all := Flatten(all, e.right);
    } else {
      all := exprs + [e];
    }
  }

  lemma ConcerningFrom(all: seq<Expr>, i: nat, table: string)
    requires i < |all|
    ensures Concerning(all[i..], table) == (if BelongsToTable(all[i], table) then [all[i]] else []) + Concerning(all[i + 1..], table)
  {
    hide BelongsToTable;
    assert all[i..][1..] == all[i + 1..];
  }

  lemma NoneConcerns(table: string)
    ensures Concerning([], table) == []
  {
  }

  method KeepConcerning(all: seq<Expr>, table: string) returns (exprs: seq<Expr>)
    ensures exprs == Concerning(all, table)
  {
    hide BelongsToTable, Concerning;
    exprs := [];
    assert all[0..] == all;
    NoneConcerns(table);
    for i := 0 to |all|
      invariant Concerning(all, table) == exprs + Concerning(all[i..], table)
    {
      ConcerningFrom(all, i, table);
      if BelongsToTable(all[i], table) {
        exprs := exprs + [all[i]];
      }
    }
  }

  method AllBut(exprs: seq<Expr>, choose: nat) returns (rest: seq<Expr>)
    requires choose < |exprs|
    ensures rest == exprs[..choose] + exprs[choose + 1..]
  {
    rest := [];
    for k := 0 to |exprs|
      invariant rest == if k <= choose then exprs[..k] else exprs[..choose] + exprs[choose + 1..k]
    {
      if k != choose {
        rest := rest + [exprs[k]];
      }
    }
  }

  method DecideScan(s: Schema, table: string, where: Option<Expr>) returns (plan: Plan)
    ensures plan == Decide(s, table, where)
  {
    hide TryIndex, BelongsToTable, FlatAnd;
    if where.None? {
      return Full([]);
    }
    var all := Flatten([], where.value);
    assert all == FlatAnd(where.value);
    var exprs := KeepConcerning(all, table);
    for i := 0 to |exprs|
      invariant DecideAmong(s, exprs, 0) == DecideAmong(s, exprs, i)
    {
      var g := TryIndex(s, exprs[i]);
      if g.Some? {
        var rest := AllBut(exprs, i);
        return Indexed(g.value, rest);
      }
    }
    plan := Full(exprs);
  }

  /** A place put in front of the first one it does not lie behind. */
  lemma PlacedBefore(locs: seq<Location>, k: nat, x: Location)
    requires Increasing(locs) && k <= |locs| && x !in locs
    requires (forall j | 0 <= j < k :: Before(locs[j], x)) && (k < |locs| ==> !Before(locs[k], x))
    ensures Increasing(locs[..k] + [x] + locs[k..])
    ensures forall l :: l in locs[..k] + [x] + locs[k..] <==> l in locs || l == x
  {
    assert forall j | k <= j < |locs| :: Before(x, locs[j]) by {
      forall j | k <= j < |locs| ensures Before(x, locs[j]) {
        assert locs[k] in locs && (j > k ==> Before(locs[k], locs[j]));
      }
    }
    assert locs == locs[..k] + locs[k..];
  }

  /** Sorts places found by an index; it stands for the library's sort. */
  method SortLocs(found: seq<Location>) returns (locs: seq<Location>)
    requires forall i, j | 0 <= i < j < |found| :: found[i] != found[j]
    ensures Increasing(locs) && forall l :: l in locs <==> l in found
  {
    locs := [];
    for i := 0 to |found|
      invariant Increasing(locs) && forall l :: l in locs <==> l in found[..i]
    {
      var x := found[i];
      assert x !in found[..i];
      var k := 0;
      while k < |locs| && Before(locs[k], x)
        invariant k <= |locs| && forall j | 0 <= j < k :: Before(locs[j], x)
      {
        k := k + 1;
      }
      assert found[..i + 1] == found[..i] + [x];
      PlacedBefore(locs, k, x);
      locs := locs[..k] + [x] + locs[k..];
    }
    assert found[..|found|] == found;
  }

  /**
   Runs a plan: `scan` is what a full scan finds, `found` what the index returned for the plan's range.
   */
  method GetScannedRows(m: Meaning, rows: map<Location, Row>, scan: seq<Location>, found: seq<Location>, plan: Plan) returns (result: seq<Location>)
    requires plan.Full? ==> Lists(scan, rows.Keys)
    requires plan.Indexed? ==>
               && (forall l :: l in found <==> l in rows && InRange(m, plan.range, rows[l]))
               && (forall i, j | 0 <= i < j < |found| :: found[i] != found[j])
    ensures Lists(result, ByPlan(m, plan, rows))
  {
    hide InRange, Passes;
    var locs := scan;
    if plan.Indexed? {
      locs := SortLocs(found);
    }
    result := [];
    for i := 0 to |locs|
      invariant Increasing(result) && forall l | l in result :: l in locs[..i]
      invariant forall l :: l in result <==> l in locs[..i] && Passes(m, plan.filter, rows[l])
    {
      var l := locs[i];
      assert l in locs && locs[..i + 1] == locs[..i] + [l];
      assert forall j | 0 <= j < |result| :: Before(result[j], l) by {
        forall j | 0 <= j < |result| ensures Before(result[j], l) {
          assert result[j] in result;
          var k :| 0 <= k < i && locs[..i][k] == result[j];
        }
      }
      if Passes(m, plan.filter, rows[l]) {
        result := result + [l];
      }
    }
    assert locs[..|locs|] == locs;
  }
}
