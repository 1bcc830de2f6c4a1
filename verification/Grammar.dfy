/** The expression grammar as trees (libs/expr/ot-expr.h), and how a token list is read (libs/expr/eval.cc). */
module Grammars {
  import opened Options
  import opened Sequences
  import opened Tokenisers
  import opened Spellings

  /** The arithmetic of the value type. */
  datatype Arithmetic<!V> = Arithmetic(
    number: string -> V, neg: V -> V,
    mul: (V, V) -> V, div: (V, V) -> V, add: (V, V) -> V, sub: (V, V) -> V,
    eq: (V, V) -> bool, lt: (V, V) -> bool, gt: (V, V) -> bool, le: (V, V) -> bool, ge: (V, V) -> bool,
    truth: V -> bool, zero: V, one: V)

  function Flag<V>(ar: Arithmetic<V>, b: bool): V {
    if b then ar.one else ar.zero
  }

  // The levels: factor, term, side, predicate, expression.
  const FACTOR := 0
  const TERM := 1
  const SIDE := 2
  const PREDICATE := 3
  const EXPRESSION := 4

  /** The level an operator joins at, or FACTOR if the token is not a binary operator. */
  function LevelOf(t: Token): nat {
    match t
    case MUL => TERM
    case DIV => TERM
    case PLUS => SIDE
    case MINUS => SIDE
    case EQ => PREDICATE
    case NE => PREDICATE
    case LT => PREDICATE
    case GT => PREDICATE
    case LTEQ => PREDICATE
    case GTEQ => PREDICATE
    case AND => EXPRESSION
    case OR => EXPRESSION
    case _ => FACTOR
  }

  predicate Joins(t: Token, level: nat) {
    level > FACTOR && LevelOf(t) == level
  }

  function Apply<V>(ar: Arithmetic<V>, op: Token, v: V, w: V): V {
    match op
    case MUL => ar.mul(v, w)
    case DIV => ar.div(v, w)
    case PLUS => ar.add(v, w)
    case MINUS => ar.sub(v, w)
    case EQ => Flag(ar, ar.eq(v, w))
    case NE => Flag(ar, !ar.eq(v, w))
    case LT => Flag(ar, ar.lt(v, w))
    case GT => Flag(ar, ar.gt(v, w))
    case LTEQ => Flag(ar, ar.le(v, w))
    case GTEQ => Flag(ar, ar.ge(v, w))
    case AND => Flag(ar, ar.truth(v) && ar.truth(w))
    case OR => Flag(ar, ar.truth(v) || ar.truth(w))
    case _ => v
  }

  // ---------- Trees ----------

  datatype Tree =
    | Number(text: string)
    | Variable(name: string)
    | Negated(operand: Tree)
    | Inverted(operand: Tree)
    | Bracketed(inside: Tree)
    | Joined(op: Token, left: Tree, right: Tree)

  /** The grammar: operators of one level group to the left, a predicate holds at most one comparison, and
      unary signs repeat. */
  predicate Shaped(t: Tree, level: nat) {
    match t
    case Number(_) => true
    case Variable(_) => true
    case Negated(u) => Shaped(u, FACTOR)
    case Inverted(u) => Shaped(u, FACTOR)
    case Bracketed(u) => Shaped(u, EXPRESSION)
    case Joined(op, l, r) =>
      var k := LevelOf(op);
      0 < k <= level && Shaped(l, if k == PREDICATE then SIDE else k) && Shaped(r, k - 1)
  }

  function Yield(t: Tree): seq<Token> {
    match t
    case Number(text) => [NUMBER(text)]
    case Variable(name) => [NAME(name)]
    case Negated(u) => [MINUS] + Yield(u)
    case Inverted(u) => [NOT] + Yield(u)
    case Bracketed(u) => [LPAR] + Yield(u) + [RPAR]
    case Joined(op, l, r) => Yield(l) + ([op] + Yield(r))
  }

  /** The value of a tree: both operands are always evaluated, so every name in it must be known. */
  function Value<V>(ar: Arithmetic<V>, vars: map<string, V>, t: Tree): Option<V> {
    match t
    case Number(text) => Some(ar.number(text))
    case Variable(name) => if name in vars then Some(vars[name]) else None
    case Negated(u) =>
      var v := Value(ar, vars, u);
      if v.Some? then Some(ar.neg(v.value)) else None
    case Inverted(u) =>
      var v := Value(ar, vars, u);
      if v.Some? then Some(Flag(ar, !ar.truth(v.value))) else None
    case Bracketed(u) => Value(ar, vars, u)
    case Joined(op, l, r) =>
      var v, w := Value(ar, vars, l), Value(ar, vars, r);
      if v.Some? && w.Some? then Some(Apply(ar, op, v.value, w.value)) else None
  }

  // ---------- Reading ----------

  /** A value and the tokens from the current one on, or the message of the exception. */
  datatype Read<+V> = Done(value: V, rest: seq<Token>) | Failed(message: string)

  function Head(ts: seq<Token>): Token {
    if ts == [] then EOT else ts[0]
  }

  /** Moving to the next token throws. */
  predicate Stuck(ts: seq<Token>) {
    ts != [] && Head(ts[1..]).Bad?
  }

  /** Move past the current token once a value is known. */
  function Past<V>(v: V, ts: seq<Token>): (r: Read<V>)
    requires ts != []
    ensures r.Done? ==> |r.rest| < |ts|
  {
    if Stuck(ts) then Failed(ts[1].message) else Done(v, ts[1..])
  }

  function ReadFactor<V>(ar: Arithmetic<V>, vars: map<string, V>, ts: seq<Token>): (r: Read<V>)
    ensures r.Done? ==> |r.rest| < |ts|
    decreases |ts|, 0
  {
    match Head(ts)
    case MINUS =>
      if Stuck(ts) then Failed(ts[1].message)
      else (
        match ReadFactor(ar, vars, ts[1..])
        case Failed(m) => Failed(m)
        case Done(v, rest) => Done(ar.neg(v), rest))
    case NOT =>
      if Stuck(ts) then Failed(ts[1].message)
      else (
        match ReadFactor(ar, vars, ts[1..])
        case Failed(m) => Failed(m)
        case Done(v, rest) => Done(Flag(ar, !ar.truth(v)), rest))
    case NUMBER(text) => Past(ar.number(text), ts)
    case NAME(name) => if name in vars then Past(vars[name], ts) else Failed("No such variable '" + name + "'")
    case LPAR =>
      if Stuck(ts) then Failed(ts[1].message)
      else (
        match ReadLevel(ar, vars, EXPRESSION, ts[1..])
        case Failed(m) => Failed(m)
        case Done(v, rest) => if Head(rest) == RPAR then Past(v, rest) else Failed("Mismatched parentheses"))
    case EOT => Failed("Unexpected end")
    case _ => Failed("Unrecognised token")
  }

  function ReadLevel<V>(ar: Arithmetic<V>, vars: map<string, V>, level: nat, ts: seq<Token>): (r: Read<V>)
    ensures r.Done? ==> |r.rest| < |ts|
    decreases |ts|, level + 1
  {
    if level == FACTOR then ReadFactor(ar, vars, ts)
    else
      match ReadLevel(ar, vars, level - 1, ts)
      case Failed(m) => Failed(m)
      case Done(v, rest) => ReadMore(ar, vars, level, v, rest)
  }

  /** The operators of a level after its first operand: any number of them, but one comparison at most. */
  function ReadMore<V>(ar: Arithmetic<V>, vars: map<string, V>, level: nat, v: V, ts: seq<Token>): (r: Read<V>)
    ensures r.Done? ==> |r.rest| <= |ts|
    decreases |ts|, level
  {
    if !Joins(Head(ts), level) then Done(v, ts)
    else if Stuck(ts) then Failed(ts[1].message)
    else
      match ReadLevel(ar, vars, level - 1, ts[1..])
      case Failed(m) => Failed(m)
      case Done(w, rest) =>
        var u := Apply(ar, ts[0], v, w);
        if level == PREDICATE then Done(u, rest) else ReadMore(ar, vars, level, u, rest)
  }

  lemma TermStartsWithFactor<V>(ar: Arithmetic<V>, vars: map<string, V>, ts: seq<Token>)
    ensures ReadLevel(ar, vars, TERM, ts) ==
            match ReadFactor(ar, vars, ts)
            case Failed(m) => Failed(m)
            case Done(v, rest) => ReadMore(ar, vars, TERM, v, rest)
  {
    assert ReadLevel(ar, vars, FACTOR, ts) == ReadFactor(ar, vars, ts);
  }

  /** The whole evaluation of a token list. */
  function Evaluation<V>(ar: Arithmetic<V>, vars: map<string, V>, ts: seq<Token>): Read<V> {
    if Head(ts).Bad? then Failed(Head(ts).message)
    else
      match ReadLevel(ar, vars, EXPRESSION, ts)
      case Failed(m) => Failed(m)
      case Done(v, rest) => if Head(rest) == EOT then Done(v, rest) else Failed("Parse error")
  }

  // ---------- What is read has a tree ----------

  lemma {:induction false} FactorHasTree<V>(ar: Arithmetic<V>, vars: map<string, V>, ts: seq<Token>) returns (t: Tree)
    requires ReadFactor(ar, vars, ts).Done?
    ensures Shaped(t, FACTOR) && ts == Yield(t) + ReadFactor(ar, vars, ts).rest
    ensures Value(ar, vars, t) == Some(ReadFactor(ar, vars, ts).value)
    decreases |ts|, 0
  {
    var rest := ReadFactor(ar, vars, ts).rest;
    match Head(ts)
    case NUMBER(text) => t := Number(text);
    case NAME(name) => t := Variable(name);
    case MINUS =>
      var u := FactorHasTree(ar, vars, ts[1..]);
      t := Negated(u);
      Assoc([MINUS], Yield(u), rest);
    case NOT =>
      var u := FactorHasTree(ar, vars, ts[1..]);
      t := Inverted(u);
      Assoc([NOT], Yield(u), rest);
    case LPAR =>
      var u := LevelHasTree(ar, vars, EXPRESSION, ts[1..]);
      var middle := ReadLevel(ar, vars, EXPRESSION, ts[1..]).rest;
      t := Bracketed(u);
      Bracket(Yield(u), middle, rest);
  }

  lemma Bracket(inside: seq<Token>, middle: seq<Token>, rest: seq<Token>)
    requires middle != [] && middle[0] == RPAR && middle[1..] == rest
    ensures [LPAR] + (inside + middle) == [LPAR] + inside + [RPAR] + rest
  {
    assert middle == [RPAR] + rest;
    Assoc([LPAR] + inside, [RPAR], rest);
    Assoc([LPAR], inside, middle);
  }

  lemma {:induction false} LevelHasTree<V>(ar: Arithmetic<V>, vars: map<string, V>, level: nat, ts: seq<Token>)
    returns (t: Tree)
    requires level <= EXPRESSION && ReadLevel(ar, vars, level, ts).Done?
    ensures Shaped(t, level) && ts == Yield(t) + ReadLevel(ar, vars, level, ts).rest
    ensures Value(ar, vars, t) == Some(ReadLevel(ar, vars, level, ts).value)
    decreases |ts|, level + 1
  {
    if level == FACTOR {
      t := FactorHasTree(ar, vars, ts);
    } else {
      var first := LevelHasTree(ar, vars, level - 1, ts);
      var r := ReadLevel(ar, vars, level - 1, ts);
      t := MoreHasTree(ar, vars, level, first, r.value, r.rest);
    }
  }

  lemma {:induction false} MoreHasTree<V>(ar: Arithmetic<V>, vars: map<string, V>, level: nat, first: Tree, v: V,
                                          ts: seq<Token>) returns (t: Tree)
    requires 0 < level <= EXPRESSION && ReadMore(ar, vars, level, v, ts).Done?
    requires Shaped(first, if level == PREDICATE then SIDE else level) && Value(ar, vars, first) == Some(v)
    ensures Shaped(t, level) && Yield(first) + ts == Yield(t) + ReadMore(ar, vars, level, v, ts).rest
    ensures Value(ar, vars, t) == Some(ReadMore(ar, vars, level, v, ts).value)
    decreases |ts|, level
  {
    if !Joins(Head(ts), level) {
      t := first;
    } else {
      var second := LevelHasTree(ar, vars, level - 1, ts[1..]);
      var r := ReadLevel(ar, vars, level - 1, ts[1..]);
      var both := Joined(ts[0], first, second);
      assert Yield(both) + r.rest == Yield(first) + ts by {
        Assoc(Yield(first), [ts[0]] + Yield(second), r.rest);
        Assoc([ts[0]], Yield(second), r.rest);
        assert ts == [ts[0]] + ts[1..];
      }
      if level == PREDICATE {
        t := both;
      } else {
        t := MoreHasTree(ar, vars, level, both, Apply(ar, ts[0], v, r.value), r.rest);
      }
    }
  }

  // ---------- What has a tree is read ----------

  lemma {:induction false} YieldStarts(t: Tree, rest: seq<Token>)
    ensures Yield(t) != [] && !Head(Yield(t) + rest).Bad? && Head(Yield(t) + rest) == Yield(t)[0]
    ensures !Yield(t)[0].Bad?
  {
    match t {
      case Joined(op, l, r) => YieldStarts(l, []);
      case _ =>
    }
  }

  /** The token after an operand cannot be taken as part of it. */
  predicate Follows(level: nat, rest: seq<Token>) {
    var k := LevelOf(Head(rest));
    !Head(rest).Bad? && (k == 0 || k > level || (k == level && level != PREDICATE))
  }

  lemma {:induction false} TreeIsRead<V>(ar: Arithmetic<V>, vars: map<string, V>, t: Tree, level: nat, rest: seq<Token>)
    requires level <= EXPRESSION && Shaped(t, level) && Follows(level, rest) && Value(ar, vars, t).Some?
    ensures ReadLevel(ar, vars, level, Yield(t) + rest) == ReadMore(ar, vars, level, Value(ar, vars, t).value, rest)
    decreases t, level + 1
  {
    if t.Joined? && LevelOf(t.op) == level {
      JoinedIsRead(ar, vars, t, rest);
    } else if level > FACTOR {
      TreeIsRead(ar, vars, t, level - 1, rest);
      NoMore(ar, vars, level - 1, Value(ar, vars, t).value, rest);
      LevelUp(ar, vars, level, Yield(t) + rest, Value(ar, vars, t).value, rest);
    } else {
      FactorIsRead(ar, vars, t, rest);
      NoMore(ar, vars, FACTOR, Value(ar, vars, t).value, rest);
    }
  }

  lemma NoMore<V>(ar: Arithmetic<V>, vars: map<string, V>, level: nat, v: V, rest: seq<Token>)
    requires !Joins(Head(rest), level)
    ensures ReadMore(ar, vars, level, v, rest) == Done(v, rest)
  {
  }

  lemma LevelUp<V>(ar: Arithmetic<V>, vars: map<string, V>, level: nat, ts: seq<Token>, v: V, rest: seq<Token>)
    requires level > FACTOR && ReadLevel(ar, vars, level - 1, ts) == Done(v, rest)
    ensures ReadLevel(ar, vars, level, ts) == ReadMore(ar, vars, level, v, rest)
  {
  }

  lemma {:induction false} FactorIsRead<V>(ar: Arithmetic<V>, vars: map<string, V>, t: Tree, rest: seq<Token>)
    requires Shaped(t, FACTOR) && Follows(FACTOR, rest) && Value(ar, vars, t).Some?
    ensures ReadFactor(ar, vars, Yield(t) + rest) == Done(Value(ar, vars, t).value, rest)
    decreases t, 0
  {
    match t
    case Number(text) => DropLeft(Yield(t), rest);
    case Variable(name) => DropLeft(Yield(t), rest);
    case Negated(u) =>
      FactorIsRead(ar, vars, u, rest);
      AfterSign(MINUS, u, rest);
      SignIsRead(ar, vars, Yield(t) + rest, Value(ar, vars, u).value, rest);
    case Inverted(u) =>
      FactorIsRead(ar, vars, u, rest);
      AfterSign(NOT, u, rest);
      SignIsRead(ar, vars, Yield(t) + rest, Value(ar, vars, u).value, rest);
    case Bracketed(u) => BracketsAreRead(ar, vars, u, rest);
  }

  lemma SignIsRead<V>(ar: Arithmetic<V>, vars: map<string, V>, ts: seq<Token>, v: V, rest: seq<Token>)
    requires ts != [] && ts[0] in {MINUS, NOT} && !Stuck(ts) && ReadFactor(ar, vars, ts[1..]) == Done(v, rest)
    ensures ReadFactor(ar, vars, ts) == Done(if ts[0] == MINUS then ar.neg(v) else Flag(ar, !ar.truth(v)), rest)
  {
  }

  lemma {:induction false} BracketsAreRead<V>(ar: Arithmetic<V>, vars: map<string, V>, u: Tree, rest: seq<Token>)
    requires Shaped(u, EXPRESSION) && !Head(rest).Bad? && Value(ar, vars, u).Some?
    ensures ReadFactor(ar, vars, Yield(Bracketed(u)) + rest) == Done(Value(ar, vars, u).value, rest)
    decreases u, EXPRESSION + 2
  {
    var v := Value(ar, vars, u).value;
    TreeIsRead(ar, vars, u, EXPRESSION, [RPAR] + rest);
    NoMore(ar, vars, EXPRESSION, v, [RPAR] + rest);
    AfterSign(LPAR, u, [RPAR] + rest);
    Assoc([LPAR] + Yield(u), [RPAR], rest);
    ClosesBracket(ar, vars, Yield(Bracketed(u)) + rest, v, rest);
  }

  lemma ClosesBracket<V>(ar: Arithmetic<V>, vars: map<string, V>, ts: seq<Token>, v: V, rest: seq<Token>)
    requires ts != [] && ts[0] == LPAR && !Stuck(ts) && !Head(rest).Bad?
    requires ReadLevel(ar, vars, EXPRESSION, ts[1..]) == Done(v, [RPAR] + rest)
    ensures ReadFactor(ar, vars, ts) == Done(v, rest)
  {
    DropLeft([RPAR], rest);
  }

  lemma AfterSign(sign: Token, u: Tree, rest: seq<Token>)
    ensures var ts := [sign] + Yield(u) + rest;
            ts != [] && ts[0] == sign && ts[1..] == Yield(u) + rest && !Stuck(ts)
  {
    Assoc([sign], Yield(u), rest);
    DropLeft([sign], Yield(u) + rest);
    YieldStarts(u, rest);
  }

  lemma {:induction false} JoinedIsRead<V>(ar: Arithmetic<V>, vars: map<string, V>, t: Tree, rest: seq<Token>)
    requires t.Joined? && Shaped(t, LevelOf(t.op)) && Follows(LevelOf(t.op), rest) && Value(ar, vars, t).Some?
    ensures ReadLevel(ar, vars, LevelOf(t.op), Yield(t) + rest) ==
            ReadMore(ar, vars, LevelOf(t.op), Value(ar, vars, t).value, rest)
    decreases t, 0
  {
    var k := LevelOf(t.op);
    var v, w := Value(ar, vars, t.left).value, Value(ar, vars, t.right).value;
    var operand := Yield(t.right) + rest;
    TreeIsRead(ar, vars, t.left, if k == PREDICATE then SIDE else k, [t.op] + operand);
    TreeIsRead(ar, vars, t.right, k - 1, rest);
    NoMore(ar, vars, k - 1, w, rest);
    YieldStarts(t.right, rest);
    Assoc(Yield(t.left), [t.op] + Yield(t.right), rest);
    Assoc([t.op], Yield(t.right), rest);
    OneMore(ar, vars, k, v, t.op, operand, w, rest);
    if k == PREDICATE {
      NoMore(ar, vars, SIDE, v, [t.op] + operand);
      LevelUp(ar, vars, k, Yield(t) + rest, v, [t.op] + operand);
      NoMore(ar, vars, k, Apply(ar, t.op, v, w), rest);
    }
  }

  /** An operator and an operand that is read: one turn of a level's loop. */
  lemma OneMore<V>(ar: Arithmetic<V>, vars: map<string, V>, level: nat, v: V, op: Token, operand: seq<Token>, w: V, rest: seq<Token>)
    requires Joins(op, level) && operand != [] && !operand[0].Bad?
    requires ReadLevel(ar, vars, level - 1, operand) == Done(w, rest)
    ensures var u := Apply(ar, op, v, w);
            ReadMore(ar, vars, level, v, [op] + operand) ==
            if level == PREDICATE then Done(u, rest) else ReadMore(ar, vars, level, u, rest)
  {
    DropLeft([op], operand);
  }

  // ---------- Evaluation ----------

  /** Only the last token is the end of text or an exception. */
  predicate Stream(ts: seq<Token>) {
    && ts != [] && (ts[|ts| - 1] == EOT || ts[|ts| - 1].Bad?)
    && forall i | 0 <= i < |ts| - 1 :: ts[i] != EOT && !ts[i].Bad?
  }

  lemma {:induction false} TokensAreStream(s: string)
    ensures Stream(Tokens(s))
    decreases |s|
  {
    var (token, rest) := Lex(s);
    if token != EOT && !token.Bad? {
      TokensAreStream(rest);
    }
  }

  ghost predicate Derives<V>(ar: Arithmetic<V>, vars: map<string, V>, t: Tree, ts: seq<Token>, v: V) {
    Shaped(t, EXPRESSION) && Yield(t) == ts && Value(ar, vars, t) == Some(v)
  }

  lemma EvaluatedHasTree<V>(ar: Arithmetic<V>, vars: map<string, V>, ts: seq<Token>) returns (t: Tree)
    requires Stream(ts) && Evaluation(ar, vars, ts).Done?
    ensures Derives(ar, vars, t, ts[..|ts| - 1], Evaluation(ar, vars, ts).value) && ts[|ts| - 1] == EOT
  {
    t := LevelHasTree(ar, vars, EXPRESSION, ts);
    var rest := ReadLevel(ar, vars, EXPRESSION, ts).rest;
    assert Head(rest) == EOT;
    YieldEnds(t);
    assert rest == [] ==> ts == Yield(t);
    assert ts[|Yield(t)|] == EOT;
    assert ts[..|ts| - 1] == Yield(t);
  }

  lemma {:induction false} YieldEnds(t: Tree)
    requires Shaped(t, EXPRESSION)
    ensures Yield(t) != [] && Yield(t)[|Yield(t)| - 1] != EOT && !Yield(t)[|Yield(t)| - 1].Bad?
  {
    match t {
      case Negated(u) => YieldEnds(u);
      case Inverted(u) => YieldEnds(u);
      case Joined(op, l, r) =>
        YieldEnds(r);
        LastOf(Yield(l) + [op], Yield(r));
        Assoc(Yield(l), [op], Yield(r));
      case _ =>
    }
  }

  lemma LastOf(a: seq<Token>, b: seq<Token>)
    requires b != []
    ensures a + b != [] && (a + b)[|a + b| - 1] == b[|b| - 1]
  {
  }

  lemma TreeIsEvaluated<V>(ar: Arithmetic<V>, vars: map<string, V>, s: string, t: Tree)
    requires Shaped(t, EXPRESSION) && Spells(s, Yield(t)) && Value(ar, vars, t).Some?
    ensures Evaluation(ar, vars, Tokens(s)) == Done(Value(ar, vars, t).value, [EOT])
  {
    TokensIffSpelt(s, Yield(t));
    TreeIsRead(ar, vars, t, EXPRESSION, [EOT]);
    YieldStarts(t, [EOT]);
  }

  /** Evaluating a text succeeds with a value exactly when the text spells the yield of a tree of the grammar
      that has this value; so it fails exactly when there is no such tree. */
  lemma EvaluatesIff<V>(ar: Arithmetic<V>, vars: map<string, V>, s: string, v: V)
    ensures (exists t :: Shaped(t, EXPRESSION) && Spells(s, Yield(t)) && Value(ar, vars, t) == Some(v)) <==>
            Evaluation(ar, vars, Tokens(s)).Done? && Evaluation(ar, vars, Tokens(s)).value == v
  {
    if Evaluation(ar, vars, Tokens(s)).Done? && Evaluation(ar, vars, Tokens(s)).value == v {
      var t := EvaluatedIsSpelt(ar, vars, s);
    }
    if t :| Shaped(t, EXPRESSION) && Spells(s, Yield(t)) && Value(ar, vars, t) == Some(v) {
      TreeIsEvaluated(ar, vars, s, t);
    }
  }

  lemma EvaluatedIsSpelt<V>(ar: Arithmetic<V>, vars: map<string, V>, s: string) returns (t: Tree)
    requires Evaluation(ar, vars, Tokens(s)).Done?
    ensures Shaped(t, EXPRESSION) && Spells(s, Yield(t))
    ensures Value(ar, vars, t) == Some(Evaluation(ar, vars, Tokens(s)).value)
  {
    TokensAreStream(s);
    t := EvaluatedHasTree(ar, vars, Tokens(s));
    AllButLast(Tokens(s));
    TokensIffSpelt(s, Yield(t));
  }

  lemma AllButLast(ts: seq<Token>)
    requires ts != []
    ensures ts == ts[..|ts| - 1] + [ts[|ts| - 1]]
  {
  }

  /** A tree has a value exactly when every name in it is known: no operand is skipped. */
  lemma {:induction false} ValueIffNamesKnown<V>(ar: Arithmetic<V>, vars: map<string, V>, t: Tree)
    requires Shaped(t, EXPRESSION)
    ensures Value(ar, vars, t).Some? <==> forall name :: NAME(name) in Yield(t) ==> name in vars
  {
    match t {
      case Number(_) =>
      case Variable(_) =>
        assert NAME(t.name) in Yield(t);
      case Negated(u) => ValueIffNamesKnown(ar, vars, u);
      case Inverted(u) => ValueIffNamesKnown(ar, vars, u);
      case Bracketed(u) => ValueIffNamesKnown(ar, vars, u);
      case Joined(op, l, r) =>
        ValueIffNamesKnown(ar, vars, l);
        ValueIffNamesKnown(ar, vars, r);
    }
  }

  /** The grammar gives a list of tokens one value at most. */
  lemma OneValue<V>(ar: Arithmetic<V>, vars: map<string, V>, t: Tree, u: Tree)
    requires Shaped(t, EXPRESSION) && Shaped(u, EXPRESSION) && Yield(t) == Yield(u)
    ensures Value(ar, vars, t) == Value(ar, vars, u)
  {
    ValueIffNamesKnown(ar, vars, t);
    ValueIffNamesKnown(ar, vars, u);
    if Value(ar, vars, t).Some? {
      TreeIsRead(ar, vars, t, EXPRESSION, [EOT]);
      TreeIsRead(ar, vars, u, EXPRESSION, [EOT]);
    }
  }

  /** Evaluating succeeds exactly on the texts that spell an expression whose names are all known. */
  lemma SucceedsIff<V>(ar: Arithmetic<V>, vars: map<string, V>, s: string)
    ensures Evaluation(ar, vars, Tokens(s)).Done? <==>
            exists t :: Shaped(t, EXPRESSION) && Spells(s, Yield(t)) && forall name :: NAME(name) in Yield(t) ==> name in vars
  {
    var r := Evaluation(ar, vars, Tokens(s));
    if r.Done? {
      EvaluatesIff(ar, vars, s, r.value);
      var t :| Shaped(t, EXPRESSION) && Spells(s, Yield(t)) && Value(ar, vars, t) == Some(r.value);
      ValueIffNamesKnown(ar, vars, t);
    }
    if t :| Shaped(t, EXPRESSION) && Spells(s, Yield(t)) && forall name :: NAME(name) in Yield(t) ==> name in vars {
      ValueIffNamesKnown(ar, vars, t);
      EvaluatesIff(ar, vars, s, Value(ar, vars, t).value);
    }
  }
}
