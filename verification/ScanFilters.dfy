/** What the filter of a scan means, which conjuncts it keeps, and which rows a full scan lists. */
module ScanFilters {
  import opened Options
  import opened ScanPlans
  import opened ByteCodec
  import BPlusTreeModel

  // --- Comparisons -------------------------------------------------------------------------------------------------

  const OPERATORS := ["=", "!=", "<", "<=", ">", ">="]

  /** The relation that an operator names. */
  predicate Relation(a: real, op: string, b: real) {
    match op
    case "=" => a == b
    case "!=" => a != b
    case "<" => a < b
    case "<=" => a <= b
    case ">" => a > b
    case _ => op == ">=" && a >= b
  }

  predicate IsNumber(v: Value) {
    v.Int? || v.Float? || v.Bool?
  }

  /** The number a value stands for. */
  function RealOf(v: Value): real
    requires IsNumber(v)
  {
    match v
    case Int(i) => i as real
    case Float(r) => r
    case Bool(true) => 1.0
    case Bool(false) => 0.0
  }

  /** Numbers and truth values compare as the reals they stand for. */
  lemma CompareNumbers(m: Meaning, a: Value, op: string, b: Value)
    requires IsNumber(a) && IsNumber(b)
    ensures Compare(m, a, op, b) <==> Relation(RealOf(a), op, RealOf(b))
  {
    SixOperators();
  }

  lemma SixOperators()
    ensures forall i, j | 0 <= i < j < |OPERATORS| :: OPERATORS[i] != OPERATORS[j]
  {
  }

  /** NULL equals NULL, and differs from everything else; no other comparison with it is true. */
  lemma CompareNulls(m: Meaning, a: Value, op: string, b: Value)
    requires a.Null? || b.Null?
    ensures Compare(m, a, op, b) <==> (op == "=" && a == b) || (op == "!=" && a != b)
  {
  }

  /** A comparison with text goes by the sign of the comparison of the two values. */
  lemma CompareTexts(m: Meaning, a: Value, op: string, b: Value)
    requires (a.Text? || b.Text?) && !a.Null? && !b.Null? && -1 <= m.text(a, b) <= 1
    ensures Compare(m, a, op, b) <==> Relation(m.text(a, b) as real, op, 0.0)
  {
    SixOperators();
  }

  /** For all values, `!=` is the negation of `=`. */
  lemma UnequalIsNotEqual(m: Meaning, a: Value, b: Value)
    ensures Compare(m, a, "!=", b) <==> !Compare(m, a, "=", b)
  {
  }

  /**
   A scan filtered by one comparison with a number, on a column of numbers that has no index or by an operator that
   no index answers: the rows whose number stands in the relation, and for `!=` those with NULL.
   */
  lemma ScanOfComparison(m: Meaning, s: Schema, table: string, c: string, op: string, v: Value, rows: map<Location, Row>)
    requires IsNumber(v) && op in OPERATORS && (c !in s.indexed || op == "!=")
    requires forall l | l in rows :: Cell(rows[l], c).Null? || IsNumber(Cell(rows[l], c))
    ensures
      ByPlan(m, Decide(s, table, Some(Cmp(Column(None, c), op, Literal(v)))), rows)
        == set l | l in rows && var x := Cell(rows[l], c);
                   if x.Null? then op == "!=" else Relation(RealOf(x), op, RealOf(v))
  {
    var e := Cmp(Column(None, c), op, Literal(v));
    OneConjunct(s, table, e);
    forall l | l in rows
      ensures EvaluateBool(m, e, rows[l]) <==>
                var x := Cell(rows[l], c); if x.Null? then op == "!=" else Relation(RealOf(x), op, RealOf(v))
    {
      var x := Cell(rows[l], c);
      if x.Null? { CompareNulls(m, x, op, v); } else { CompareNumbers(m, x, op, v); }
    }
  }

  lemma OneConjunct(s: Schema, table: string, e: Expr)
    requires !e.And? && BelongsToTable(e, table) && TryIndex(s, e).None?
    ensures Decide(s, table, Some(e)) == Full([e])
  {
    hide TryIndex, BelongsToTable;
    var es := [e];
    assert FlatAnd(e) == es && es[1..] == [];
    assert Concerning(es, table) == [e] + Concerning([], table) == es;
    assert DecideAmong(s, es, 0) == DecideAmong(s, es, 1) == Full(es);
  }

  // --- Which conjuncts are kept ------------------------------------------------------------------------------------------

  /** A column without a qualifier, or with the table's own name. */
  predicate Own(qualifier: Option<string>, table: string) {
    qualifier == None || qualifier == Some(table)
  }

  function OperandQualifiers(o: Operand): seq<Option<string>> {
    match o
    case Column(t, _) => [t]
    case Literal(_) => []
    case Computed(_, ts) => ts
  }

  /** The qualifiers of all columns that an expression names. */
  function Qualifiers(e: Expr): seq<Option<string>> {
    match e
    case And(l, r) => Qualifiers(l) + Qualifiers(r)
    case Cmp(l, _, r) => OperandQualifiers(l) + OperandQualifiers(r)
    case Between(v, lo, hi) => OperandQualifiers(v) + (OperandQualifiers(lo) + OperandQualifiers(hi))
    case Other(_, ts) => ts
  }

  /** Those that are looked at: of BETWEEN, the tested value only. */
  function Compared(e: Expr): seq<Option<string>> {
    match e
    case And(l, r) => Compared(l) + Compared(r)
    case Between(v, _, _) => OperandQualifiers(v)
    case _ => Qualifiers(e)
  }

  lemma OwnNames(table: string)
    ensures forall t :: Names(t, table) <==> Own(t, table)
  {
  }

  lemma OperandBelongsExact(o: Operand, table: string)
    ensures OperandBelongs(o, table) <==> forall t | t in OperandQualifiers(o) :: Own(t, table)
  {
    OwnNames(table);
    if o.Column? { assert o.table in OperandQualifiers(o); }
  }

  /** A conjunct is kept exactly if every column looked at is one of the table's own. */
  lemma {:induction false} BelongsExact(e: Expr, table: string)
    ensures BelongsToTable(e, table) <==> forall t | t in Compared(e) :: Own(t, table)
  {
    hide OperandBelongs, OperandQualifiers;
    OwnNames(table);
    match e
    case And(l, r) =>
      BelongsExact(l, table);
      BelongsExact(r, table);
    case Cmp(l, _, r) =>
      OperandBelongsExact(l, table);
      OperandBelongsExact(r, table);
    case Between(v, _, _) => OperandBelongsExact(v, table);
    case Other(_, _) =>
  }

  lemma {:induction false} ConjunctQualifiers(where: Expr, e: Expr)
    requires e in FlatAnd(where)
    ensures forall t | t in Compared(e) :: t in Qualifiers(where)
  {
    hide OperandQualifiers;
    if where.And? {
      if e in FlatAnd(where.left) { ConjunctQualifiers(where.left, e); } else { ConjunctQualifiers(where.right, e); }
    }
  }

  /** If a WHERE clause names only columns of the table, no conjunct is left out. */
  lemma NothingDropped(m: Meaning, table: string, where: Expr, row: Row)
    requires forall t | t in Qualifiers(where) :: t == None || t == Some(table)
    ensures PassesDropped(m, table, where, row)
    ensures forall e | e in FlatAnd(where) :: BelongsToTable(e, table)
  {
    hide FlatAnd, BelongsToTable, Qualifiers, Compared;
    forall e | e in FlatAnd(where) ensures BelongsToTable(e, table) {
      ConjunctQualifiers(where, e);
      BelongsExact(e, table);
    }
  }

  /** A plan asks nothing of columns of another table: neither its filter nor the conjunct that an index answers. */
  lemma KeptIsOwn(s: Schema, table: string, where: Expr, e: Expr)
    requires e in Concerning(FlatAnd(where), table)
    ensures e in FlatAnd(where) && forall t | t in Compared(e) :: t == None || t == Some(table)
  {
    BelongsExact(e, table);
  }

  // --- Which conjunct an index answers ---------------------------------------------------------------------------------

  /** A column with an index of its own, compared with literals by an operator other than `!=`. */
  predicate Indexable(s: Schema, e: Expr) {
    match e
    case Cmp(Column(_, c), op, Literal(_)) => c in s.types && c in s.indexed && op in OPERATORS && op != "!="
    case Between(Column(_, c), Literal(_), Literal(_)) => c in s.types && c in s.indexed
    case _ => false
  }

  lemma IndexableExact(s: Schema, e: Expr)
    ensures TryIndex(s, e).Some? <==> Indexable(s, e)
    ensures TryIndex(s, e).Some? ==> TryIndex(s, e).value.column == (if e.Cmp? then e.l else e.value).name
  {
  }

  /** The first such conjunct is answered by the index, all others filter; without one, all filter. */
  lemma {:induction false} DecideFirst(s: Schema, es: seq<Expr>, i: nat)
    requires i <= |es|
    ensures var p := DecideAmong(s, es, i);
            if exists k | i <= k < |es| :: Indexable(s, es[k]) then
              exists k | i <= k < |es| ::
                && Indexable(s, es[k]) && (forall j | i <= j < k :: !Indexable(s, es[j]))
                && TryIndex(s, es[k]).Some? && p == Indexed(TryIndex(s, es[k]).value, es[..k] + es[k + 1..])
            else p == Full(es)
    decreases |es| - i
  {
    hide TryIndex, Indexable;
    if i < |es| {
      IndexableExact(s, es[i]);
      if TryIndex(s, es[i]).None? {
        DecideFirst(s, es, i + 1);
      }
    }
  }

  /** A literal keeps its number on the way into a key, but for the fraction that an integer column has no place for. */
  lemma CoerceKeeps(v: Value, colType: string)
    requires IsNumber(v)
    ensures IsNumber(Coerce(v, colType))
    ensures RealOf(Coerce(v, colType)) == RealOf(v)
            || (colType == "int" && v.Float? && Coerce(v, colType) == Int(Truncate(v.r)) && Truncate(v.r) as real != v.r)
  {
  }

  // --- Where a plan is right -----------------------------------------------------------------------------------------------

  /** A number without a fraction that fits an integer. */
  predicate WholeNumber(v: Value) {
    IsNumber(v) && RealOf(v) == RealOf(v).Floor as real && -0x8000_0000 <= RealOf(v).Floor < 0x8000_0000
  }

  predicate WholeLiterals(e: Expr) {
    match e
    case Cmp(_, _, Literal(v)) => WholeNumber(v)
    case Between(_, Literal(lo), Literal(hi)) => WholeNumber(lo) && WholeNumber(hi)
    case _ => false
  }

  lemma WholeIsKeyed(v: Value)
    requires WholeNumber(v)
    ensures Keyed(v) && Number(v) == AsKey(v) as real && !v.Null?
  {
    match v
    case Float(r) => CutOfWhole(r, r.Floor);
    case _ =>
  }

  lemma CutOfWhole(r: real, k: int)
    requires r == k as real
    ensures Truncate(r) == k
  {
    assert (-r).Floor == -k;
  }

  lemma WholeIsRight(e: Expr, v: Value)
    requires WholeLiterals(e) && v.Int?
    ensures KeyedLiterals(e) && !Wrong(e, v)
  {
    hide WholeNumber, Keyed;
    match e
    case Cmp(_, _, Literal(k)) => WholeIsKeyed(k);
    case Between(_, Literal(lo), Literal(hi)) =>
      WholeIsKeyed(lo);
      WholeIsKeyed(hi);
  }

  /**
   If a WHERE clause names only columns of the table, and its conjuncts on indexed columns compare integers that are
   not NULL with whole numbers, the plan returns the rows it selects, in the order of a full scan.
   */
  lemma PlanRight(m: Meaning, s: Schema, table: string, where: Expr, rows: map<Location, Row>, planned: seq<Location>, filtered: seq<Location>)
    requires forall t | t in Qualifiers(where) :: t == None || t == Some(table)
    requires forall e | e in FlatAnd(where) && Indexable(s, e) :: WholeLiterals(e)
    requires forall c | c in s.types && c in s.indexed :: s.types[c] == "int"
    requires forall l, c | l in rows && c in s.types && s.types[c] == "int" :: Cell(rows[l], c).Int?
    requires Lists(planned, ByPlan(m, Decide(s, table, Some(where)), rows))
    requires Lists(filtered, ByWhere(m, where, rows))
    ensures planned == filtered
  {
    hide FlatAnd, Qualifiers, WholeLiterals, Lists, ByPlan, ByWhere, Decide, DecideAmong, EvaluateBool, Indexable, TryIndex,
         Concerning, PassesDropped, KeyedLiterals, Wrong, IndexAnswer;
    var es := Concerning(FlatAnd(where), table);
    if DecideAmong(s, es, 0).Indexed? {
      ChosenIsIndexable(s, es);
      var e := es[Chosen(s, es, 0)];
      var c := DecideAmong(s, es, 0).range.column;
      assert e in es;
      WholeIsRight(e, Int(0));
      forall l | l in rows ensures !Wrong(e, Cell(rows[l], c)) {
        WholeIsRight(e, Cell(rows[l], c));
      }
    }
    forall l | l in rows ensures !Misjudged(m, s, table, where, rows[l]) {
      NothingDropped(m, table, where, rows[l]);
    }
    PlanExact(m, s, table, where, rows, planned, filtered);
  }

  lemma ChosenIsIndexable(s: Schema, es: seq<Expr>)
    requires DecideAmong(s, es, 0).Indexed?
    ensures var e, c := es[Chosen(s, es, 0)], DecideAmong(s, es, 0).range.column;
            Indexable(s, e) && c in s.types && c in s.indexed
  {
    IndexableExact(s, es[Chosen(s, es, 0)]);
  }

  // --- The rows of a table, in order -----------------------------------------------------------------------------------------

  /** The rows that are not deleted, by page and slot; page 0 is the header of the file. */
  function LiveRows(pages: seq<seq<Option<Row>>>): map<Location, Row> {
    map p, i | 1 <= p < |pages| && 0 <= i < |pages[p]| && pages[p][i].Some? :: BPlusTreeModel.Location(p, i) := pages[p][i].value
  }

  /** The places before slot `i` of page `p`. */
  ghost predicate ListsBefore(scan: seq<Location>, pages: seq<seq<Option<Row>>>, p: nat, i: nat) {
    && Increasing(scan)
    && (forall l | l in scan :: l.page < p || (l.page == p && l.slot < i))
    && forall l :: l in scan <==> l in LiveRows(pages) && (l.page < p || (l.page == p && l.slot < i))
  }

  /** Page by page and slot by slot, the rows that are not deleted. */
  method FullScan(pages: seq<seq<Option<Row>>>) returns (scan: seq<Location>)
    ensures Lists(scan, LiveRows(pages).Keys)
    ensures forall i, j | 0 <= i < j < |scan| ::
              scan[i].page < scan[j].page || (scan[i].page == scan[j].page && scan[i].slot < scan[j].slot)
  {
    scan := [];
    var p := 1;
    while p < |pages|
      invariant 1 <= p && ListsBefore(scan, pages, p, 0)
    {
      for i := 0 to |pages[p]|
        invariant ListsBefore(scan, pages, p, i)
      {
        if pages[p][i].Some? {
          scan := scan + [BPlusTreeModel.Location(p, i)];
        }
      }
      p := p + 1;
    }
  }
}
