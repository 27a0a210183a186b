/** The spelling of names: the parser makes the same of keywords and identifiers, in any case of letters. */
module ExpressionSpelling {
  import opened Options
  import opened Expressions
  import opened ExpressionRoundTrip
  import opened ExpressionUnique

  /** The tokenizer makes keywords of some names, `count` among them. Behind a dot only an identifier is a name. */
  predicate Interchangeable(a: Token, b: Token, behindDot: bool) {
    && (a.kind == Keyword || a.kind == Identifier) && (b.kind == Keyword || b.kind == Identifier)
    && Lower(a.value) == Lower(b.value) && (behindDot ==> a.kind == b.kind)
  }

  predicate BehindDot(ts: Tokens, i: nat)
    requires i < |ts|
  {
    i > 0 && ts[i - 1].kind == Dot
  }

  /** The same tokens, but for the kind of names and words and for the case of their letters. */
  predicate Alike(a: Tokens, b: Tokens) {
    && |a| == |b|
    && forall i | 0 <= i < |a| :: a[i] == b[i] || Interchangeable(a[i], b[i], BehindDot(a, i))
  }

  ghost predicate SameParse<T(!new)>(p: Parse<T>, q: Parse<T>) {
    match (p, q)
    case (Failure, Failure) => true
    case (Success(x, s), Success(y, t)) => x == y && Alike(s, t)
    case _ => false
  }

  lemma {:induction false} Tails(a: Tokens, b: Tokens)
    requires Alike(a, b)
    ensures forall n | 0 <= n <= |a| :: Alike(a[n..], b[n..])
  {
    hide Lower;
    forall n | 0 <= n <= |a| ensures Alike(a[n..], b[n..]) {
      forall i | 0 <= i < |a| - n
        ensures a[n..][i] == b[n..][i] || Interchangeable(a[n..][i], b[n..][i], BehindDot(a[n..], i))
      {
        assert a[n..][i] == a[n + i] && b[n..][i] == b[n + i];
        assert BehindDot(a[n..], i) ==> BehindDot(a, n + i);
      }
    }
  }

  /** What the parser looks at in the first token. */
  lemma {:induction false} Heads(a: Tokens, b: Tokens)
    requires Alike(a, b)
    ensures a != [] ==> Lower(a[0].value) == Lower(b[0].value) && (IsName(a[0].kind) <==> IsName(b[0].kind))
    ensures a != [] && !IsName(a[0].kind) ==> a[0] == b[0]
    ensures forall w :: Is(a, w) <==> Is(b, w)
    ensures forall k :: AtOp(k, a) <==> AtOp(k, b)
  {
    hide Lower;
  }

  lemma {:induction false} SameLevel(k: nat, a: Tokens, b: Tokens)
    requires k <= TERM && Alike(a, b)
    ensures SameParse(ParseLevel(k, a), ParseLevel(k, b))
    decreases |a|, 10 - k
  {
    hide Alike, Is, AtOp, Lower, Loop, Comparison, Term;
    Heads(a, b);
    Tails(a, b);
    if k == TERM {
      SameTerm(a, b);
    } else if k == NOT && Is(a, "not") {
      NonEmpty(a, b, "not");
      SameLevel(COMPARE, a[1..], b[1..]);
    } else {
      SameLevel(k + 1, a, b);
      var p, q := ParseLevel(k + 1, a), ParseLevel(k + 1, b);
      if p.Success? {
        if k == COMPARE { SameComparison(p.value, p.rest, q.rest); } else { SameLoop(k, p.value, p.rest, q.rest); }
      }
    }
  }

  lemma {:induction false} NonEmpty(a: Tokens, b: Tokens, w: string)
    requires Alike(a, b) && Is(a, w)
    ensures |a| == |b| >= 1
  {
  }

  lemma {:induction false} SameLoop(k: nat, left: Expr, a: Tokens, b: Tokens)
    requires k < TERM && Alike(a, b)
    ensures SameParse(Loop(k, left, a), Loop(k, left, b))
    decreases |a|, 0
  {
    hide Alike, AtOp, Lower, ParseLevel;
    Heads(a, b);
    Tails(a, b);
    if AtOp(k, a) {
      AtSome(k, a, b);
      SameLevel(k + 1, a[1..], b[1..]);
      var p, q := ParseLevel(k + 1, a[1..]), ParseLevel(k + 1, b[1..]);
      if p.Success? {
        SameLoop(k, Binary(left, Lower(a[0].value), p.value), p.rest, q.rest);
      }
    }
  }

  lemma {:induction false} AtSome(k: nat, a: Tokens, b: Tokens)
    requires Alike(a, b) && AtOp(k, a)
    ensures |a| == |b| >= 1
  {
  }

  lemma {:induction false} SameItems(starred: bool, a: Tokens, b: Tokens)
    requires Alike(a, b)
    ensures SameParse(Items(starred, a), Items(starred, b))
    decreases |a|, 20
  {
    hide Alike, Is, Lower, ParseLevel;
    Heads(a, b);
    Tails(a, b);
    Lengths(a, b);
    if !(starred && a != [] && a[0].kind == Star) {
      SameLevel(OR, a, b);
    }
    var p, q := ItemAt(starred, a), ItemAt(starred, b);
    if p.Success? {
      Heads(p.rest, q.rest);
      Tails(p.rest, q.rest);
      Lengths(p.rest, q.rest);
      if Is(p.rest, ",") {
        NonEmpty(p.rest, q.rest, ",");
        SameItems(starred, p.rest[1..], q.rest[1..]);
      } else if Is(p.rest, ")") {
        NonEmpty(p.rest, q.rest, ")");
      }
    }
  }

  lemma {:induction false} Lengths(a: Tokens, b: Tokens)
    requires Alike(a, b)
    ensures |a| == |b|
    ensures |a| > 0 && !IsName(a[0].kind) ==> a[0] == b[0]
    ensures |a| > 1 ==> (IsName(a[1].kind) <==> IsName(b[1].kind)) && (!IsName(a[1].kind) ==> a[1] == b[1])
    ensures |a| > 2 && a[1].kind == Dot ==> a[2].kind == b[2].kind && Lower(a[2].value) == Lower(b[2].value)
  {
    hide Lower;
  }

  lemma {:induction false} SameTerm(a: Tokens, b: Tokens)
    requires Alike(a, b)
    ensures SameParse(Term(a), Term(b))
    decreases |a|, 0
  {
    hide Alike, Is, Lower, ParseLevel, Items;
    Heads(a, b);
    Tails(a, b);
    Lengths(a, b);
    if a != [] {
      if IsName(a[0].kind) && |a| > 1 && a[1].kind == LParen {
        Heads(a[1..], b[1..]);
        Heads(a[2..], b[2..]);
        Lengths(a[2..], b[2..]);
        if Is(a[2..], ")") { NonEmpty(a[2..], b[2..], ")"); } else { SameItems(true, a[2..], b[2..]); }
      } else if a[0].kind == LParen {
        SameLevel(OR, a[1..], b[1..]);
        var p, q := ParseLevel(OR, a[1..]), ParseLevel(OR, b[1..]);
        if p.Success? {
          Heads(p.rest, q.rest);
          Tails(p.rest, q.rest);
          if Is(p.rest, ")") { NonEmpty(p.rest, q.rest, ")"); }
        }
      }
    }
  }

  /** A word and the operand after it. */
  lemma {:induction false} SameOperand(a: Tokens, b: Tokens)
    requires Alike(a, b) && a != []
    ensures |b| == |a| && SameParse(ParseLevel(ADD, a[1..]), ParseLevel(ADD, b[1..]))
    decreases |a|, 0
  {
    Tails(a, b);
    hide ParseLevel, Lower;
    SameLevel(ADD, a[1..], b[1..]);
  }

  lemma {:induction false} SameComparison(left: Expr, a: Tokens, b: Tokens)
    requires Alike(a, b)
    ensures SameParse(Comparison(left, a), Comparison(left, b))
    decreases |a|, 2
  {
    hide Alike, Is, Lower, ParseLevel, Items;
    Heads(a, b);
    Lengths(a, b);
    if Is(a, "is") {
      SameIs(left, a, b);
    } else if Is(a, "between") {
      SameBetween(left, a, b);
    } else if Is(a, "in") {
      SameIn(left, a, b);
    } else if a != [] && (Is(a, "like") || Lower(a[0].value) in COMPARISONS) {
      SameOperand(a, b);
    } else if Is(a, "like") {
      NonEmpty(a, b, "like");
    }
  }

  lemma {:induction false} SameIs(left: Expr, a: Tokens, b: Tokens)
    requires Alike(a, b) && Is(a, "is")
    ensures SameParse(Comparison(left, a), Comparison(left, b))
  {
    hide Alike, Lower, ParseLevel, Items;
    Heads(a, b);
    Lengths(a, b);
    Tails(a, b);
    Heads(a[1..], b[1..]);
    Lengths(a[1..], b[1..]);
    var n := if Is(a[1..], "not") then 2 else 1;
    Heads(a[n..], b[n..]);
    Tails(a[n..], b[n..]);
  }

  lemma {:induction false} SameBetween(left: Expr, a: Tokens, b: Tokens)
    requires Alike(a, b) && Is(a, "between")
    ensures SameParse(Comparison(left, a), Comparison(left, b))
    decreases |a|, 1
  {
    hide Alike, Is, Lower, ParseLevel, Items;
    Heads(a, b);
    NonEmpty(a, b, "between");
    SameWord(a, "between");
    SameWord(b, "between");
    SameOperand(a, b);
    var p, q := ParseLevel(ADD, a[1..]), ParseLevel(ADD, b[1..]);
    if p.Success? {
      Heads(p.rest, q.rest);
      if Is(p.rest, "and") {
        NonEmpty(p.rest, q.rest, "and");
        SameOperand(p.rest, q.rest);
      }
    }
  }

  /** A token is spelled like one word only. */
  lemma {:induction false} SameWord(ts: Tokens, w: string)
    requires Is(ts, w)
    ensures forall v | v != w :: !Is(ts, v)
  {
  }

  lemma {:induction false} SameIn(left: Expr, a: Tokens, b: Tokens)
    requires Alike(a, b) && Is(a, "in")
    ensures SameParse(Comparison(left, a), Comparison(left, b))
    decreases |a|, 1
  {
    hide Alike, Is, Lower, ParseLevel, Items;
    Heads(a, b);
    NonEmpty(a, b, "in");
    SameWord(a, "in");
    SameWord(b, "in");
    Tails(a, b);
    Heads(a[1..], b[1..]);
    if Is(a[1..], "(") {
      NonEmpty(a[1..], b[1..], "(");
      Heads(a[2..], b[2..]);
      if Is(a[2..], ")") { NonEmpty(a[2..], b[2..], ")"); } else { SameItems(false, a[2..], b[2..]); }
    }
  }

  /**
   For every expression, and its tokens spelled in any way: with names and words as keywords or identifiers, in
   any case of letters. They are read as that very expression, and no further, exactly as those that are printed.
   */
  lemma {:induction false} RoundTripSpelled(e: Expr, rest: Tokens, ts: Tokens)
    requires Ends(OR, rest) && !AtOp(OR, rest) && Alike(ts, Print(e, OR) + rest)
    ensures ParseLevel(OR, ts) == Success(e, ts[|Print(e, OR)|..]) <==> Printable(e, OR)
  {
    hide ParseLevel, Print, Printable, Ends, AtOp;
    var printed, n := Print(e, OR) + rest, |Print(e, OR)|;
    RoundTrip(e, rest);
    SameLevel(OR, ts, printed);
    var p, q := ParseLevel(OR, ts), ParseLevel(OR, printed);
    assert printed[n..] == rest;
    if q.Success? {
      CostLevel(OR, ts);
      CostLevel(OR, printed);
      SuffixesSame(printed, q.rest, rest, n);
      SuffixesSame(ts, p.rest, ts[n..], n);
    }
  }

  /** What is left is known by its length. */
  lemma {:induction false} SuffixesSame(ts: Tokens, left: Tokens, rest: Tokens, n: nat)
    requires n <= |ts| && rest == ts[n..] && |left| <= |ts| && left == ts[|ts| - |left|..]
    ensures left == rest <==> |left| == |rest|
  {
  }

  /** `count` comes from the tokenizer as a keyword; it is the name of a function all the same. */
  lemma {:induction false} KeywordIsAName()
    ensures
      var e := Function("count", [Column(None, "*")]);
      ParseLevel(OR, [Token(Keyword, "COUNT"), OPEN, Token(Star, "*"), CLOSE]) == Success(e, [])
  {
    var e := Function("count", [Column(None, "*")]);
    var ts := [Token(Keyword, "COUNT"), OPEN, Token(Star, "*"), CLOSE];
    CountPrinted(e);
    assert Lower("COUNT") == "count" == Lower("count");
    assert Alike(ts, Print(e, OR) + []);
    RoundTripSpelled(e, [], ts);
  }

  lemma {:induction false} CountPrinted(e: Expr)
    requires e == Function("count", [Column(None, "*")])
    ensures Print(e, OR) == [Token(Identifier, "count"), OPEN, Token(Star, "*"), CLOSE]
    ensures Printable(e, OR)
  {
    Words();
    LowerIs("count");
    var args := e.args;
    assert PrintItems(true, args) == [Token(Star, "*")];
    assert Lower("*") == "*" != ")";
    assert Body(e) == [Token(Identifier, "count"), OPEN, Token(Star, "*"), CLOSE];
    assert PrintableItem(true, args[0]) && PrintableItems(true, args);
    assert "count" != "not";
  }
}
