/**
 The calculator's expression parser.  Operators stay symbolic: parsing builds a
 tree.  The precedence-climbing parser of the code is compared with a grammar
 in layers (sum, product, power, primary), each folding to the left.
 */
module Calc {

  datatype Fn = Sin | Cos | Tan | Sqrt | Log | Ln | Abs | Floor | Ceil

  datatype Token =
    | Num(v: real) | Ans
    | Plus | Minus | Mul | Div | Mod | Pow
    | LParen | RParen
    | Func(f: Fn) | Error

  /** `Missing` is the 0.0 returned where an operand was expected and none found. */
  datatype Tree =
    | Lit(v: real) | LastAnswer | Missing
    | Neg(arg: Tree) | Call(f: Fn, arg: Tree)
    | Bin(op: Token, l: Tree, r: Tree)

  /** Binding strength; -1 for anything that is not a binary operator. */
  function Prec(t: Token): (p: int)
    ensures -1 <= p <= 3 && p != 0
  {
    match t
    case Plus => 1
    case Minus => 1
    case Mul => 2
    case Div => 2
    case Mod => 2
    case Pow => 3
    case _ => -1
  }

  /** The strength of the next token; -1 at the end of the input. */
  function Next(ts: seq<Token>): (p: int)
    ensures -1 <= p <= 3 && p != 0
  {
    if ts == [] then -1 else Prec(ts[0])
  }

  type Parsed = (Tree, seq<Token>)

  function Skip(ts: seq<Token>, t: Token): (r: seq<Token>)
    ensures |r| <= |ts|
  {
    if ts != [] && ts[0] == t then ts[1..] else ts
  }

  // ----- precedence climbing, as in the code -----

  function Primary(ts: seq<Token>): (r: Parsed)
    ensures |r.1| <= |ts|
    decreases |ts|, 0
  {
    if ts == [] then (Missing, ts)
    else
      match ts[0]
      case Num(v) => (Lit(v), ts[1..])
      case Ans => (LastAnswer, ts[1..])
      case LParen => var (t, r) := Expr(ts[1..], 0); (t, Skip(r, RParen))
      case Func(f) => var (t, r) := Expr(Skip(ts[1..], LParen), 0); (Call(f, t), Skip(r, RParen))
      case Minus => var (t, r) := Primary(ts[1..]); (Neg(t), r)
      case Plus => Primary(ts[1..])
      case _ => (Missing, ts)
  }

  function Expr(ts: seq<Token>, min: nat): (r: Parsed)
    ensures |r.1| <= |ts|
    decreases |ts|, 2
  {
    var (t, r) := Primary(ts);
    Climb(t, r, min)
  }

  function Climb(lhs: Tree, ts: seq<Token>, min: nat): (r: Parsed)
    ensures |r.1| <= |ts| && Next(r.1) < min
    decreases |ts|, 1
  {
    if Next(ts) < min then (lhs, ts)
    else
      var (rhs, r) := Expr(ts[1..], Next(ts) + 1);
      Climb(Bin(ts[0], lhs, rhs), r, min)
  }

  // ----- the grammar in layers -----

  /** The input goes on with one of the given tokens. */
  predicate Starts(ts: seq<Token>, xs: seq<Token>) {
    ts != [] && ts[0] in xs
  }

  function Sum(ts: seq<Token>): (r: Parsed)
    ensures |r.1| <= |ts|
    decreases |ts|, 6
  {
    var (t, r) := Product(ts);
    SumTail(t, r)
  }

  function SumTail(lhs: Tree, ts: seq<Token>): (r: Parsed)
    ensures |r.1| <= |ts|
    decreases |ts|, 5
  {
    if Starts(ts, [Plus, Minus]) then var (rhs, r) := Product(ts[1..]); SumTail(Bin(ts[0], lhs, rhs), r) else (lhs, ts)
  }

  function Product(ts: seq<Token>): (r: Parsed)
    ensures |r.1| <= |ts|
    decreases |ts|, 4
  {
    var (t, r) := Power(ts);
    ProductTail(t, r)
  }

  function ProductTail(lhs: Tree, ts: seq<Token>): (r: Parsed)
    ensures |r.1| <= |ts|
    decreases |ts|, 3
  {
    if Starts(ts, [Mul, Div, Mod]) then var (rhs, r) := Power(ts[1..]); ProductTail(Bin(ts[0], lhs, rhs), r) else (lhs, ts)
  }

  function Power(ts: seq<Token>): (r: Parsed)
    ensures |r.1| <= |ts|
    decreases |ts|, 2
  {
    var (t, r) := Atom(ts);
    PowerTail(t, r)
  }

  function PowerTail(lhs: Tree, ts: seq<Token>): (r: Parsed)
    ensures |r.1| <= |ts|
    decreases |ts|, 1
  {
    if Starts(ts, [Pow]) then var (rhs, r) := Atom(ts[1..]); PowerTail(Bin(ts[0], lhs, rhs), r) else (lhs, ts)
  }

  function Atom(ts: seq<Token>): (r: Parsed)
    ensures |r.1| <= |ts|
    decreases |ts|, 0
  {
    if ts == [] then (Missing, ts)
    else
      match ts[0]
      case Num(v) => (Lit(v), ts[1..])
      case Ans => (LastAnswer, ts[1..])
      case LParen => var (t, r) := Sum(ts[1..]); (t, Skip(r, RParen))
      case Func(f) => var (t, r) := Sum(Skip(ts[1..], LParen)); (Call(f, t), Skip(r, RParen))
      case Minus => var (t, r) := Atom(ts[1..]); (Neg(t), r)
      case Plus => Atom(ts[1..])
      case _ => (Missing, ts)
  }

  // ----- the two agree -----

  /** Climbing at one level is climbing at the next level first and then going on. */
  lemma {:induction false} Stages(lhs: Tree, ts: seq<Token>, m: nat)
    ensures var c := Climb(lhs, ts, m + 1); Climb(lhs, ts, m) == Climb(c.0, c.1, m)
    decreases |ts|
  {
    if Next(ts) >= m + 1 {
      var e := Expr(ts[1..], Next(ts) + 1);
      Stages(Bin(ts[0], lhs, e.0), e.1, m);
    }
  }

  /** The strengths are the layers of the grammar, token by token. */
  lemma Layers(ts: seq<Token>)
    ensures Next(ts) == 1 <==> Starts(ts, [Plus, Minus])
    ensures Next(ts) == 2 <==> Starts(ts, [Mul, Div, Mod])
    ensures Next(ts) == 3 <==> Starts(ts, [Pow])
  {
  }

  lemma {:induction false} PowerTailAgrees(lhs: Tree, ts: seq<Token>)
    ensures PowerTail(lhs, ts) == Climb(lhs, ts, 3)
    decreases |ts|, 2
  {
    Layers(ts);
    if Next(ts) == 3 {
      Agree(ts[1..]);
      var e := Expr(ts[1..], 4);
      PowerTailAgrees(Bin(ts[0], lhs, e.0), e.1);
    }
  }

  lemma {:induction false} ProductTailAgrees(lhs: Tree, ts: seq<Token>)
    requires Next(ts) < 3
    ensures ProductTail(lhs, ts) == Climb(lhs, ts, 2)
    decreases |ts|, 2
  {
    Layers(ts);
    if Next(ts) == 2 {
      Agree(ts[1..]);
      var e := Expr(ts[1..], 3);
      ProductTailAgrees(Bin(ts[0], lhs, e.0), e.1);
    }
  }

  lemma {:induction false} SumTailAgrees(lhs: Tree, ts: seq<Token>)
    requires Next(ts) < 2
    ensures SumTail(lhs, ts) == Climb(lhs, ts, 1)
    decreases |ts|, 2
  {
    Layers(ts);
    if Next(ts) == 1 {
      Agree(ts[1..]);
      var e := Expr(ts[1..], 2);
      SumTailAgrees(Bin(ts[0], lhs, e.0), e.1);
    }
  }

  lemma {:induction false} AtomAgrees(ts: seq<Token>)
    ensures Atom(ts) == Primary(ts)
    decreases |ts|, 1
  {
    if ts != [] {
      Agree(ts[1..]);
      Agree(Skip(ts[1..], LParen));
    }
  }

  lemma {:induction false} ZeroIsOne(lhs: Tree, ts: seq<Token>)
    ensures Climb(lhs, ts, 0) == Climb(lhs, ts, 1)
    decreases |ts|
  {
    if Next(ts) >= 1 {
      var e := Expr(ts[1..], Next(ts) + 1);
      ZeroIsOne(Bin(ts[0], lhs, e.0), e.1);
    }
  }

  /** Every climbing level is a layer of the grammar, on every token sequence, well formed or not. */
  lemma {:induction false} Agree(ts: seq<Token>)
    ensures Expr(ts, 0) == Sum(ts) && Expr(ts, 1) == Sum(ts) && Expr(ts, 2) == Product(ts)
    ensures Expr(ts, 3) == Power(ts) && Expr(ts, 4) == Atom(ts) && Primary(ts) == Atom(ts)
    decreases |ts|, 9
  {
    AtomAgrees(ts);
    var a := Primary(ts);
    assert Expr(ts, 4) == a;
    var b, c, d := Climb(a.0, a.1, 3), Climb(a.0, a.1, 2), Climb(a.0, a.1, 1);
    PowerTailAgrees(a.0, a.1);
    assert Power(ts) == b;
    Stages(a.0, a.1, 2);
    ProductTailAgrees(b.0, b.1);
    assert Product(ts) == c;
    Stages(a.0, a.1, 1);
    SumTailAgrees(c.0, c.1);
    assert Sum(ts) == d;
    ZeroIsOne(a.0, a.1);
  }

  // ----- printing -----

  /** A tree that can be written down: every operand present, every operator binary. */
  predicate Printable(t: Tree) {
    match t
    case Lit(_) => true
    case LastAnswer => true
    case Missing => false
    case Neg(a) => Printable(a)
    case Call(_, a) => Printable(a)
    case Bin(op, l, r) => Prec(op) > 0 && Printable(l) && Printable(r)
  }

  /** The tree in a place that needs strength `m`: parentheses only around weaker operators. */
  function Print(t: Tree, m: nat): (ts: seq<Token>)
    requires Printable(t)
  {
    match t
    case Lit(v) => [Num(v)]
    case LastAnswer => [Ans]
    case Neg(a) => [Minus] + Print(a, 4)
    case Call(f, a) => [Func(f), LParen] + Print(a, 0) + [RParen]
    case Bin(op, l, r) =>
      var body := Print(l, Prec(op)) + [op] + Print(r, Prec(op) + 1);
      if Prec(op) < m then [LParen] + body + [RParen] else body
  }

  /** Parsing a printed tree gets to the point where the tree is the left operand of what follows. */
  lemma {:induction false} ReadsBack(t: Tree, q: nat, m: nat, rest: seq<Token>)
    requires Printable(t) && m <= q <= 4 && Next(rest) <= q
    ensures Expr(Print(t, q) + rest, m) == Climb(t, rest, m)
    decreases t, 2
  {
    if t.Bin? && Prec(t.op) >= q {
      ReadsBackOpen(t, q, m, rest);
    } else {
      ReadsBackPrimary(t, q, rest);
    }
  }

  lemma {:induction false} ReadsBackOpen(t: Tree, q: nat, m: nat, rest: seq<Token>)
    requires Printable(t) && m <= q && Next(rest) <= q && t.Bin? && Prec(t.op) >= q
    ensures Expr(Print(t, q) + rest, m) == Climb(t, rest, m)
    decreases t, 0
  {
    hide Print, Primary, Expr;
    var p := Prec(t.op);
    var tail := [t.op] + Print(t.r, p + 1) + rest;
    PrintOpen(t, q, rest);
    ReadsBack(t.l, p, m, tail);
    assert tail[1..] == Print(t.r, p + 1) + rest;
    ReadsBack(t.r, p + 1, p + 1, rest);
  }

  lemma PrintOpen(t: Tree, q: nat, rest: seq<Token>)
    requires Printable(t) && t.Bin? && Prec(t.op) >= q
    ensures var p := Prec(t.op); Print(t, q) + rest == Print(t.l, p) + ([t.op] + Print(t.r, p + 1) + rest)
  {
  }

  /** Where the tree is printed as a primary, one primary is read. */
  lemma {:induction false} ReadsBackPrimary(t: Tree, q: nat, rest: seq<Token>)
    requires Printable(t) && q <= 4 && (t.Bin? ==> Prec(t.op) < q)
    ensures Primary(Print(t, q) + rest) == (t, rest)
    decreases t, 1
  {
    hide Primary, Expr, Climb, Print;
    var tail := [RParen] + rest;
    PrintClosed(t, q, rest);
    match t
    case Lit(v) => PrimaryCases(Num(v), rest);
    case LastAnswer => PrimaryCases(Ans, rest);
    case Neg(a) =>
      ReadsBackPrimary(a, 4, rest);
      PrimaryCases(Minus, Print(a, 4) + rest);
    case Call(f, a) =>
      ClimbStops(a, rest);
      ReadsBack(a, 0, 0, tail);
      PrimaryCall(f, Print(a, 0) + tail);
    case Bin(_, _, _) =>
      ClimbStops(t, rest);
      ReadsBackOpen(t, 0, 0, tail);
      PrimaryCases(LParen, Print(t, 0) + tail);
  }

  /** What is printed as a primary, token by token. */
  lemma PrintClosed(t: Tree, q: nat, rest: seq<Token>)
    requires Printable(t) && (t.Bin? ==> Prec(t.op) < q)
    ensures var tail := [RParen] + rest;
      Print(t, q) + rest ==
        match t
        case Lit(v) => [Num(v)] + rest
        case LastAnswer => [Ans] + rest
        case Neg(a) => [Minus] + (Print(a, 4) + rest)
        case Call(f, a) => [Func(f), LParen] + (Print(a, 0) + tail)
        case Bin(_, _, _) => [LParen] + (Print(t, 0) + tail)
  {
  }

  lemma ClimbStops(t: Tree, rest: seq<Token>)
    ensures var tail := [RParen] + rest; Next(tail) == -1 && Climb(t, tail, 0) == (t, tail) && Skip(tail, RParen) == rest
  {
  }

  lemma PrimaryCall(f: Fn, ts: seq<Token>)
    ensures Primary([Func(f), LParen] + ts) == (Call(f, Expr(ts, 0).0), Skip(Expr(ts, 0).1, RParen))
  {
    assert Skip(([Func(f), LParen] + ts)[1..], LParen) == ts;
  }

  /** Parsing the printed form of any tree returns that tree and consumes everything. */
  lemma PrintThenParse(t: Tree)
    requires Printable(t)
    ensures Expr(Print(t, 0), 0) == (t, [])
  {
    assert Print(t, 0) + [] == Print(t, 0);
    ReadsBack(t, 0, 0, []);
  }

  // ----- what the notation means -----

  predicate Additive(op: Token) { op.Plus? || op.Minus? }
  predicate Multiplicative(op: Token) { op.Mul? || op.Div? || op.Mod? }

  /** Products bind tighter than sums, and powers tighter than both. */
  predicate Tighter(a: Token, b: Token) {
    (Additive(b) && (Multiplicative(a) || a.Pow?)) || (Multiplicative(b) && a.Pow?)
  }

  predicate Operator(op: Token) { Additive(op) || Multiplicative(op) || op.Pow? }

  lemma PrintLeaf(x: real)
    ensures Print(Lit(x), 0) == [Num(x)] && Print(Neg(Lit(x)), 0) == [Minus, Num(x)]
  {
  }

  /** Two operators group to the left unless the second binds tighter; the power groups to the left too. */
  lemma ThreeNumbers(x: real, a: Token, y: real, b: Token, z: real)
    requires Operator(a) && Operator(b)
    ensures Expr([Num(x), a, Num(y), b, Num(z)], 0) ==
      (if Tighter(b, a) then Bin(a, Lit(x), Bin(b, Lit(y), Lit(z))) else Bin(b, Bin(a, Lit(x), Lit(y)), Lit(z)), [])
  {
    hide Expr, Print;
    PrintLeaf(x);
    PrintLeaf(y);
    PrintLeaf(z);
    PrintRule(a, Lit(x), Lit(y));
    PrintRule(b, Lit(y), Lit(z));
    if Tighter(b, a) { PrintRule(a, Lit(x), Bin(b, Lit(y), Lit(z))); } else { PrintRule(b, Bin(a, Lit(x), Lit(y)), Lit(z)); }
    var t := if Tighter(b, a) then Bin(a, Lit(x), Bin(b, Lit(y), Lit(z))) else Bin(b, Bin(a, Lit(x), Lit(y)), Lit(z));
    PrintThenParse(t);
    assert Print(t, 0) == [Num(x), a, Num(y), b, Num(z)];
  }

  /** A sign binds tighter than every operator. */
  lemma SignFirst(x: real, a: Token, y: real)
    requires Operator(a)
    ensures Expr([Minus, Num(x), a, Num(y)], 0) == (Bin(a, Neg(Lit(x)), Lit(y)), [])
  {
    hide Expr, Print;
    PrintLeaf(x);
    PrintLeaf(y);
    PrintRule(a, Neg(Lit(x)), Lit(y));
    var t := Bin(a, Neg(Lit(x)), Lit(y));
    PrintThenParse(t);
    assert Print(t, 0) == [Minus, Num(x), a, Num(y)];
  }

  function Wrapped(ts: seq<Token>): (r: seq<Token>) {
    [LParen] + ts + [RParen]
  }

  /** The left operand is bracketed exactly when its operator is weaker, the right one when it is not tighter. */
  lemma PrintRule(op: Token, l: Tree, r: Tree)
    requires Operator(op) && Printable(l) && Printable(r)
    ensures Printable(Bin(op, l, r))
    ensures Print(Bin(op, l, r), 0) ==
      (if l.Bin? && Tighter(op, l.op) then Wrapped(Print(l, 0)) else Print(l, 0)) + [op]
      + (if r.Bin? && !Tighter(r.op, op) then Wrapped(Print(r, 0)) else Print(r, 0))
  {
    PrintPlace(l, Prec(op));
    PrintPlace(r, Prec(op) + 1);
  }

  lemma PrintPlace(t: Tree, m: nat)
    requires Printable(t)
    ensures Print(t, m) == if t.Bin? && Prec(t.op) < m then Wrapped(Print(t, 0)) else Print(t, 0)
  {
  }

  // ----- brackets -----

  /** Opening brackets around operands: all but those that follow a function name. */
  function Brackets(ts: seq<Token>): (n: nat) {
    if ts == [] then 0
    else if ts[0].Func? then Brackets(Skip(ts[1..], LParen))
    else (if ts[0] == LParen then 1 else 0) + Brackets(ts[1..])
  }

  /** The bracketed operands of a tree in a place that needs strength `m`: those with a weaker operator. */
  function Needed(t: Tree, m: nat): (n: nat) {
    match t
    case Neg(a) => Needed(a, 4)
    case Call(_, a) => Needed(a, 0)
    case Bin(op, l, r) =>
      var p := if Prec(op) > 0 then Prec(op) else 0;
      (if p < m then 1 else 0) + Needed(l, p) + Needed(r, p + 1)
    case _ => 0
  }

  lemma NeededGrows(t: Tree, m: nat, q: nat)
    requires m <= q
    ensures Needed(t, m) <= Needed(t, q) <= Needed(t, m) + 1
  {
  }

  /** Whatever is read as a primary opened a bracket for every operand that needs one. */
  lemma {:induction false} PrimaryBrackets(ts: seq<Token>)
    ensures var (t, r) := Primary(ts); Brackets(ts) >= Brackets(r) + Needed(t, 4)
    decreases |ts|, 0
  {
    if ts != [] {
      match ts[0]
      case LParen =>
        ExprBrackets(ts[1..], 0);
        NeededGrows(Expr(ts[1..], 0).0, 0, 4);
      case Func(_) => ExprBrackets(Skip(ts[1..], LParen), 0);
      case Minus => PrimaryBrackets(ts[1..]);
      case Plus => PrimaryBrackets(ts[1..]);
      case _ =>
    }
  }

  lemma {:induction false} ExprBrackets(ts: seq<Token>, m: nat)
    requires m <= 4
    ensures var (t, r) := Expr(ts, m); Brackets(ts) >= Brackets(r) + Needed(t, m)
    decreases |ts|, 2
  {
    var (a, r) := Primary(ts);
    PrimaryBrackets(ts);
    ClimbBrackets(a, r, m);
    NeededGrows(a, Strength(m, r), 4);
  }

  /** The strength at which a left operand is used next. */
  function Strength(m: nat, ts: seq<Token>): (q: nat) {
    if Next(ts) > m then Next(ts) else m
  }

  lemma {:induction false} ClimbBrackets(lhs: Tree, ts: seq<Token>, m: nat)
    requires m <= 4
    ensures var (t, r) := Climb(lhs, ts, m);
      Brackets(ts) + Needed(lhs, Strength(m, ts)) >= Brackets(r) + Needed(t, m)
    decreases |ts|, 1
  {
    hide Primary;
    if Next(ts) >= m {
      var p := Next(ts);
      var (rhs, r) := Expr(ts[1..], p + 1);
      ExprBrackets(ts[1..], p + 1);
      ClimbBrackets(Bin(ts[0], lhs, rhs), r, m);
    }
  }

  lemma OneToken(x: Token, ts: seq<Token>)
    ensures !x.Func? ==> Brackets([x] + ts) == (if x == LParen then 1 else 0) + Brackets(ts)
    ensures x.Func? ==> Brackets([x, LParen] + ts) == Brackets(ts)
  {
    assert ([x] + ts)[1..] == ts;
    assert ([x, LParen] + ts)[1..][1..] == ts;
  }

  lemma {:induction false} PrintBrackets(t: Tree, m: nat, rest: seq<Token>)
    requires Printable(t)
    ensures Brackets(Print(t, m) + rest) == Needed(t, m) + Brackets(rest)
    decreases t, 1
  {
    hide Brackets, Print;
    var tail := [RParen] + rest;
    OneToken(RParen, rest);
    if t.Bin? && Prec(t.op) >= m {
      OpenBrackets(t, m, rest);
    } else {
      PrintClosed(t, m, rest);
      match t
      case Lit(v) => OneToken(Num(v), rest);
      case LastAnswer => OneToken(Ans, rest);
      case Neg(a) =>
        PrintBrackets(a, 4, rest);
        OneToken(Minus, Print(a, 4) + rest);
      case Call(f, a) =>
        PrintBrackets(a, 0, tail);
        OneToken(Func(f), Print(a, 0) + tail);
      case Bin(_, _, _) =>
        OpenBrackets(t, 0, tail);
        OneToken(LParen, Print(t, 0) + tail);
    }
  }

  lemma {:induction false} OpenBrackets(t: Tree, m: nat, rest: seq<Token>)
    requires Printable(t) && t.Bin? && Prec(t.op) >= m
    ensures Brackets(Print(t, m) + rest) == Needed(t, m) + Brackets(rest)
    decreases t, 0
  {
    hide Brackets, Print;
    var p := Prec(t.op);
    PrintOpen(t, m, rest);
    var last := Print(t.r, p + 1) + rest;
    assert [t.op] + Print(t.r, p + 1) + rest == [t.op] + last;
    PrintBrackets(t.l, p, [t.op] + last);
    OneToken(t.op, last);
    PrintBrackets(t.r, p + 1, rest);
  }

  /** No token sequence read as a tree has fewer operand brackets than the printed tree. */
  lemma FewestBrackets(ts: seq<Token>)
    requires var t := Expr(ts, 0).0; Printable(t)
    ensures Brackets(Print(Expr(ts, 0).0, 0)) <= Brackets(ts)
  {
    hide Primary, Climb, Print;
    var t := Expr(ts, 0).0;
    ExprBrackets(ts, 0);
    PrintBrackets(t, 0, []);
    assert Print(t, 0) + [] == Print(t, 0);
  }

  /** So no bracket around an operand can be dropped: with any fewer the tokens are read as something else. */
  lemma ParenthesesNeeded(t: Tree, ts: seq<Token>)
    requires Printable(t) && Brackets(ts) < Brackets(Print(t, 0))
    ensures Expr(ts, 0).0 != t
  {
    if Expr(ts, 0).0 == t { FewestBrackets(ts); }
  }

  lemma PrimaryEnd()
    ensures Primary([]) == (Missing, [])
  {
  }

  /** What is read as a primary, by its first token. */
  lemma PrimaryCases(x: Token, ts: seq<Token>)
    ensures x.Num? ==> Primary([x] + ts) == (Lit(x.v), ts)
    ensures x.Ans? ==> Primary([x] + ts) == (LastAnswer, ts)
    ensures x.LParen? ==> Primary([x] + ts) == (Expr(ts, 0).0, Skip(Expr(ts, 0).1, RParen))
    ensures x.Func? ==> Primary([x] + ts) == (Call(x.f, Expr(Skip(ts, LParen), 0).0), Skip(Expr(Skip(ts, LParen), 0).1, RParen))
    ensures x.Minus? ==> Primary([x] + ts) == (Neg(Primary(ts).0), Primary(ts).1)
    ensures x.Plus? ==> Primary([x] + ts) == Primary(ts)
    ensures x.Mul? || x.Div? || x.Mod? || x.Pow? || x.RParen? || x.Error? ==> Primary([x] + ts) == (Missing, [x] + ts)
  {
    assert ([x] + ts)[1..] == ts;
  }

  // ----- the parser with its state -----

  class Parser {
    const tokens: seq<Token>
    var pos: nat

    ghost function Rest(): (ts: seq<Token>)
      requires pos <= |tokens|
      reads this
    {
      tokens[pos..]
    }

    constructor (tokens: seq<Token>)
      ensures this.tokens == tokens && pos == 0
    {
      this.tokens, pos := tokens, 0;
    }

    /** Steps over the current token; at the end of the input there is nothing to step over. */
    method NextToken()
      requires pos <= |tokens|
      modifies this
      ensures pos == if old(pos) < |tokens| then old(pos) + 1 else old(pos)
    {
      if pos < |tokens| { pos := pos + 1; }
    }

    /** Steps over the current token if it is `t`. */
    method Accept(t: Token)
      requires pos <= |tokens|
      modifies this
      ensures old(pos) <= pos <= |tokens| && Rest() == Skip(old(Rest()), t)
    {
      if pos < |tokens| && tokens[pos] == t {
        assert tokens[pos..][1..] == tokens[pos + 1..];
        NextToken();
      }
    }

    method ParsePrimary() returns (t: Tree)
      requires pos <= |tokens|
      modifies this
      ensures old(pos) <= pos <= |tokens| && (t, Rest()) == Primary(old(Rest()))
      decreases |tokens| - pos, 0
    {
      hide Climb, Expr, Primary;
      PrimaryEnd();
      if pos == |tokens| { return Missing; }
      PrimaryCases(tokens[pos], tokens[pos + 1..]);
      assert Rest() == [tokens[pos]] + tokens[pos + 1..];
      match tokens[pos] {
        case Num(v) =>
          NextToken();
          t := Lit(v);
        case Ans =>
          NextToken();
          t := LastAnswer;
        case LParen =>
          NextToken();
          t := ParseExpr(0);
          Accept(RParen);
        case Func(f) =>
          NextToken();
          Accept(LParen);
          t := ParseExpr(0);
          t := Call(f, t);
          Accept(RParen);
        case Minus =>
          NextToken();
          t := ParsePrimary();
          t := Neg(t);
        case Plus =>
          NextToken();
          t := ParsePrimary();
        case _ =>
          t := Missing;
      }
    }

    /** The climbing loop. */
    method ParseExpr(min: nat) returns (lhs: Tree)
      requires pos <= |tokens|
      modifies this
      ensures old(pos) <= pos <= |tokens| && (lhs, Rest()) == Expr(old(Rest()), min)
      decreases |tokens| - pos, 1
    {
      hide Primary;
      ghost var start := pos;
      lhs := ParsePrimary();
      var prec := if pos < |tokens| then Prec(tokens[pos]) else -1;
      while prec >= min
        invariant start <= pos <= |tokens| && prec == Next(Rest())
        invariant Climb(lhs, Rest(), min) == Expr(old(Rest()), min)
        decreases |tokens| - pos
      {
        var op := tokens[pos];
        assert Rest()[1..] == tokens[pos + 1..];
        NextToken();
        var rhs := ParseExpr(prec + 1);
        lhs := Bin(op, lhs, rhs);
        prec := if pos < |tokens| then Prec(tokens[pos]) else -1;
      }
    }
  }
}
