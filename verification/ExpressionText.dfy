module ExpressionTexts {
  // What expressions mean, said on texts: the value of two operands with an operator between them, how three operands
  // group, and what cannot be evaluated.

  import opened Options
  import opened Sequences
  import opened Tokenisers
  import opened Spellings
  import opened Grammars

  /** The text has this value. */
  ghost predicate EvaluatesTo<V>(ar: Arithmetic<V>, vars: map<string, V>, s: string, v: V) {
    Evaluation(ar, vars, Tokens(s)) == Done(v, [EOT])
  }

  predicate Letter(c: char) {
    'a' <= c <= 'z' || 'A' <= c <= 'Z'
  }

  /** Digits, perhaps with one point after the first of them. */
  predicate Numeral(s: string) {
    && s != "" && '0' <= s[0] <= '9'
    && (forall c <- s :: '0' <= c <= '9' || c == '.')
    && (forall i, j | 0 <= i < j < |s| :: !(s[i] == '.' && s[j] == '.'))
  }

  predicate Name(s: string) {
    s != "" && Letter(s[0]) && forall c <- s :: Letter(c) || '0' <= c <= '9' || c == '_'
  }

  /** Digits, a known name, or any text that has a value, in brackets. */
  ghost predicate Operand<V>(ar: Arithmetic<V>, vars: map<string, V>, s: string, v: V) {
    || (Numeral(s) && v == ar.number(s))
    || (Name(s) && s in vars && v == vars[s])
    || (exists a :: s == "(" + a + ")" && NUL !in a && EvaluatesTo(ar, vars, a, v))
  }

  // ---------- Joining texts that spell tokens ----------

  lemma {:induction false} SkipConcat(s: string, rest: string)
    ensures SkipSpace(s + rest) == if SkipSpace(s) == "" then SkipSpace(rest) else SkipSpace(s) + rest
    ensures forall c <- SkipSpace(s) :: c in s
  {
    if s == "" {
      EmptyLeft(rest);
    } else {
      assert (s + rest)[0] == s[0] && (s + rest)[1..] == s[1..] + rest;
      SkipConcat(s[1..], rest);
    }
  }

  lemma {:induction false} SpellsConcat(s: string, ts: seq<Token>, rest: string, us: seq<Token>)
    requires NUL !in s && Spells(s, ts) && Spells(rest, us) && (ts != [] ==> Ends(ts[|ts| - 1], rest))
    ensures Spells(s + rest, ts + us)
    decreases |ts|
  {
    if ts == [] {
      NothingBefore(s, rest, us);
      EmptyLeft(us);
    } else {
      FirstToken(s, ts);
      var left := SkipSpace(s)[|Text(ts[0])|..];
      EndsConcat(ts, left, rest);
      if |ts| > 1 {
        LastOfRest(ts);
      }
      SpellsConcat(left, ts[1..], rest, us);
      Rejoin(s, ts[0], left, ts[1..], rest, us);
      assert [ts[0]] + ts[1..] == ts;
    }
  }

  lemma NothingBefore(s: string, rest: string, us: seq<Token>)
    requires NUL !in s && Spells(s, []) && Spells(rest, us)
    ensures Spells(s + rest, us)
  {
    SkipConcat(s, rest);
    NoneLeft(s, SkipSpace(s));
    SameSkipped(rest, s + rest, us);
  }

  lemma Rejoin(s: string, token: Token, left: string, more: seq<Token>, rest: string, us: seq<Token>)
    requires SkipSpace(s) == Text(token) + left && Text(token) != "" && Proper(token)
    requires Ends(token, left + rest) && Spells(left + rest, more + us)
    ensures Spells(s + rest, [token] + more + us)
  {
    SkipConcat(s, rest);
    Assoc(Text(token), left, rest);
    Assoc([token], more, us);
    Onward(s + rest, token, left + rest, more + us);
  }

  lemma Onward(s: string, token: Token, left: string, ts: seq<Token>)
    requires SkipSpace(s) == Text(token) + left && Proper(token) && Ends(token, left) && Spells(left, ts)
    ensures Spells(s, [token] + ts)
  {
    DropLeft(Text(token), left);
    DropLeft([token], ts);
  }

  lemma NoneLeft(s: string, t: string)
    requires NUL !in s && Peek(t) == NUL && forall c <- t :: c in s
    ensures t == ""
  {
  }

  lemma SameSkipped(a: string, b: string, ts: seq<Token>)
    requires SkipSpace(a) == SkipSpace(b) && Spells(a, ts)
    ensures Spells(b, ts)
  {
  }

  lemma FirstToken(s: string, ts: seq<Token>)
    requires NUL !in s && Spells(s, ts) && ts != []
    ensures var t, n := SkipSpace(s), |Text(ts[0])|;
            0 < n <= |t| && NUL !in t[n..] && t == Text(ts[0]) + t[n..] && Spells(t[n..], ts[1..]) && Ends(ts[0], t[n..])
  {
    SkipConcat(s, "");
    TextStarts(ts[0]);
  }

  lemma LastOfRest(ts: seq<Token>)
    requires |ts| > 1
    ensures ts[1..][|ts[1..]| - 1] == ts[|ts| - 1]
  {
  }

  lemma EndsConcat(ts: seq<Token>, left: string, rest: string)
    requires ts != [] && Ends(ts[0], left) && Spells(left, ts[1..]) && Ends(ts[|ts| - 1], rest)
    ensures Ends(ts[0], left + rest)
  {
    if left == "" {
      EmptyLeft(rest);
      if |ts| > 1 {
        TextStarts(ts[1..][0]);
      }
    } else {
      assert (left + rest)[0] == left[0];
    }
  }

  // ---------- Operands ----------

  predicate Closing(t: Token) {
    t.NUMBER? || t.NAME? || t == RPAR
  }

  /** A text that can stand on either side of an operator, and what it spells. */
  ghost predicate Stands(s: string, ts: seq<Token>) {
    NUL !in s && s != "" && s[0] != '=' && ts != [] && Closing(ts[|ts| - 1]) && Spells(s, ts)
  }

  ghost predicate IsFactor<V>(ar: Arithmetic<V>, vars: map<string, V>, t: Tree, v: V) {
    Shaped(t, FACTOR) && Value(ar, vars, t) == Some(v)
  }

  /** A factor, and a text that stands for it. */
  ghost predicate StandsFor<V>(ar: Arithmetic<V>, vars: map<string, V>, s: string, t: Tree, v: V) {
    Stands(s, Yield(t)) && IsFactor(ar, vars, t, v)
  }

  lemma OneToken(s: string, t: Token)
    requires Proper(t) && Text(t) == s && Ends(t, "")
    ensures Spells(s, [t])
  {
    TextStarts(t);
    assert SkipSpace(s) == s && s[|s|..] == "" && [t][1..] == [];
  }

  /** Up to the point, or to the end. */
  lemma {:induction false} DigitsFirst(s: string, i: nat) returns (n: nat)
    requires Numeral(s) && i <= |s| && '.' !in s[..i]
    ensures i <= n <= |s| && '.' !in s[..n] && (n < |s| ==> s[n] == '.')
    decreases |s| - i
  {
    if i == |s| || s[i] == '.' {
      n := i;
    } else {
      assert s[..i + 1] == s[..i] + [s[i]];
      n := DigitsFirst(s, i + 1);
    }
  }

  lemma NumeralIsNumber(s: string)
    requires Numeral(s)
    ensures IsNumber(s)
  {
    var n := DigitsFirst(s, 0);
    forall c <- s[..n] ensures IsDigit(c) {
      assert c in s;
    }
    if n < |s| {
      forall c <- s[n + 1..] ensures IsDigit(c) {
        var j :| n + 1 <= j < |s| && s[j] == c;
        assert s[j] in s;
      }
    }
    assert NumberSplitsAt(s, n);
  }

  lemma NumeralStands(s: string)
    requires Numeral(s)
    ensures Stands(s, [NUMBER(s)])
  {
    NumeralIsNumber(s);
    OneToken(s, NUMBER(s));
    NoNulInNumber(s);
  }

  lemma NoNulInNumber(s: string)
    requires Numeral(s)
    ensures NUL !in s && s[0] != '='
  {
  }

  lemma NameStands(s: string)
    requires Name(s)
    ensures Stands(s, [NAME(s)])
  {
    OneToken(s, NAME(s));
  }

  /** A sign before what ends it. */
  lemma SignFirst(sign: Token, s: string, ts: seq<Token>)
    requires IsSign(sign) && Spells(s, ts) && Ends(sign, s)
    ensures Spells(Text(sign) + s, [sign] + ts)
  {
    TextStarts(sign);
    assert SkipSpace(Text(sign) + s) == Text(sign) + s;
    Onward(Text(sign) + s, sign, s, ts);
  }

  lemma BracketStands(a: string, ts: seq<Token>)
    requires NUL !in a && Spells(a, ts)
    ensures Stands("(" + a + ")", [LPAR] + ts + [RPAR])
  {
    OneToken(")", RPAR);
    EndsAtBracket(ts);
    SpellsConcat(a, ts, ")", [RPAR]);
    SignFirst(LPAR, a + ")", ts + [RPAR]);
    Assoc("(", a, ")");
    Assoc([LPAR], ts, [RPAR]);
  }

  lemma EndsAtBracket(ts: seq<Token>)
    ensures ts != [] ==> Ends(ts[|ts| - 1], ")")
  {
  }

  lemma InBrackets<V>(ar: Arithmetic<V>, vars: map<string, V>, a: string, v: V) returns (t: Tree)
    requires NUL !in a && EvaluatesTo(ar, vars, a, v)
    ensures StandsFor(ar, vars, "(" + a + ")", t, v)
  {
    EvaluatesIff(ar, vars, a, v);
    var u :| Shaped(u, EXPRESSION) && Spells(a, Yield(u)) && Value(ar, vars, u) == Some(v);
    t := Bracketed(u);
    BracketStands(a, Yield(u));
  }

  lemma OperandStands<V>(ar: Arithmetic<V>, vars: map<string, V>, s: string, v: V) returns (t: Tree)
    requires Operand(ar, vars, s, v)
    ensures StandsFor(ar, vars, s, t, v)
  {
    if Numeral(s) && v == ar.number(s) {
      NumeralStands(s);
      t := Number(s);
    } else if Name(s) && s in vars && v == vars[s] {
      NameStands(s);
      t := Variable(s);
    } else {
      var a :| s == "(" + a + ")" && NUL !in a && EvaluatesTo(ar, vars, a, v);
      t := InBrackets(ar, vars, a, v);
    }
  }

  lemma IsEvaluated<V>(ar: Arithmetic<V>, vars: map<string, V>, s: string, t: Tree, v: V)
    requires Stands(s, Yield(t)) && Shaped(t, EXPRESSION) && Value(ar, vars, t) == Some(v)
    ensures EvaluatesTo(ar, vars, s, v)
  {
    TreeIsEvaluated(ar, vars, s, t);
  }

  // ---------- One operator ----------

  lemma OperatorIsSign(op: Token)
    requires LevelOf(op) > FACTOR
    ensures IsSign(op) && Text(op) != "" && NUL !in Text(op) && Text(op)[0] !in {'(', '.', '_'}
    ensures !IsWord(Text(op)[0]) && forall s :: s == "" || s[0] != '=' ==> Ends(op, s)
  {
  }

  lemma JoinStands(a: string, ts: seq<Token>, op: Token, b: string, us: seq<Token>)
    requires Stands(a, ts) && LevelOf(op) > FACTOR && Stands(b, us)
    ensures Stands(a + Text(op) + b, ts + ([op] + us))
  {
    OperatorIsSign(op);
    SignFirst(op, b, us);
    assert (Text(op) + b)[0] == Text(op)[0];
    SpellsConcat(a, ts, Text(op) + b, [op] + us);
    Assoc(a, Text(op), b);
    JoinedCloses(ts, op, us);
    assert (a + Text(op) + b)[0] == a[0];
  }

  lemma JoinedCloses(ts: seq<Token>, op: Token, us: seq<Token>)
    requires us != [] && Closing(us[|us| - 1])
    ensures var all := ts + ([op] + us); all != [] && Closing(all[|all| - 1])
  {
  }

  lemma FactorsJoined<V>(ar: Arithmetic<V>, vars: map<string, V>, a: string, t: Tree, v: V, op: Token, b: string, u: Tree, w: V)
    requires StandsFor(ar, vars, a, t, v) && StandsFor(ar, vars, b, u, w) && LevelOf(op) > FACTOR
    ensures EvaluatesTo(ar, vars, a + Text(op) + b, Apply(ar, op, v, w))
  {
    JoinStands(a, Yield(t), op, b, Yield(u));
    IsEvaluated(ar, vars, a + Text(op) + b, Joined(op, t, u), Apply(ar, op, v, w));
  }

  lemma PairIs<V>(ar: Arithmetic<V>, vars: map<string, V>, a: string, v: V, op: Token, b: string, w: V)
    requires Operand(ar, vars, a, v) && Operand(ar, vars, b, w) && LevelOf(op) > FACTOR
    ensures EvaluatesTo(ar, vars, a + Text(op) + b, Apply(ar, op, v, w))
  {
    var t := OperandStands(ar, vars, a, v);
    var u := OperandStands(ar, vars, b, w);
    FactorsJoined(ar, vars, a, t, v, op, b, u, w);
  }

  /** The operators, those that bind closest first. */
  const SIGNS := [["*", "/"], ["+", "-"], ["==", "!=", "<", ">", "<=", ">="], ["&&", "||"]]

  const COMPARISONS := 2

  lemma TokenOf(sign: string, i: nat) returns (op: Token)
    requires i < |SIGNS| && sign in SIGNS[i]
    ensures LevelOf(op) == i + 1 && Text(op) == sign
  {
    if i == 0 {
      op := if sign == "*" then MUL else DIV;
    } else if i == 1 {
      op := if sign == "+" then PLUS else MINUS;
    } else if i == 2 {
      op := if sign == "==" then EQ else if sign == "!=" then NE else if sign == "<" then LT else if sign == ">" then GT
            else if sign == "<=" then LTEQ else GTEQ;
    } else {
      op := if sign == "&&" then AND else OR;
    }
  }

  lemma ApplyIs<V>(ar: Arithmetic<V>, op: Token, sign: string, v: V, w: V) returns (x: V)
    requires LevelOf(op) > FACTOR && Text(op) == sign
    ensures x == Apply(ar, op, v, w)
    ensures sign == "*" ==> x == ar.mul(v, w)
    ensures sign == "/" ==> x == ar.div(v, w)
    ensures sign == "+" ==> x == ar.add(v, w)
    ensures sign == "-" ==> x == ar.sub(v, w)
    ensures sign == "==" ==> x == if ar.eq(v, w) then ar.one else ar.zero
    ensures sign == "!=" ==> x == if ar.eq(v, w) then ar.zero else ar.one
    ensures sign == "<" ==> x == if ar.lt(v, w) then ar.one else ar.zero
    ensures sign == ">" ==> x == if ar.gt(v, w) then ar.one else ar.zero
    ensures sign == "<=" ==> x == if ar.le(v, w) then ar.one else ar.zero
    ensures sign == ">=" ==> x == if ar.ge(v, w) then ar.one else ar.zero
    ensures sign == "&&" ==> x == if ar.truth(v) && ar.truth(w) then ar.one else ar.zero
    ensures sign == "||" ==> x == if ar.truth(v) || ar.truth(w) then ar.one else ar.zero
  {
    x := Apply(ar, op, v, w);
  }

  /** What each operator does to the values of two trees. */
  lemma JoinedIs<V>(ar: Arithmetic<V>, vars: map<string, V>, op: Token, l: Tree, v: V, r: Tree, w: V) returns (x: V)
    requires Value(ar, vars, l) == Some(v) && Value(ar, vars, r) == Some(w) && LevelOf(op) > FACTOR
    ensures Value(ar, vars, Joined(op, l, r)) == Some(x)
    ensures op == MUL ==> x == ar.mul(v, w)
    ensures op == DIV ==> x == ar.div(v, w)
    ensures op == PLUS ==> x == ar.add(v, w)
    ensures op == MINUS ==> x == ar.sub(v, w)
    ensures op == EQ ==> x == if ar.eq(v, w) then ar.one else ar.zero
    ensures op == NE ==> x == if ar.eq(v, w) then ar.zero else ar.one
    ensures op == LT ==> x == if ar.lt(v, w) then ar.one else ar.zero
    ensures op == GT ==> x == if ar.gt(v, w) then ar.one else ar.zero
    ensures op == LTEQ ==> x == if ar.le(v, w) then ar.one else ar.zero
    ensures op == GTEQ ==> x == if ar.ge(v, w) then ar.one else ar.zero
    ensures op == AND ==> x == if ar.truth(v) && ar.truth(w) then ar.one else ar.zero
    ensures op == OR ==> x == if ar.truth(v) || ar.truth(w) then ar.one else ar.zero
  {
    x := ApplyIs(ar, op, Text(op), v, w);
  }

  /** What each operator does to the values of its operands. */
  lemma OperatorIs<V>(ar: Arithmetic<V>, vars: map<string, V>, a: string, v: V, i: nat, sign: string, b: string, w: V) returns (x: V)
    requires Operand(ar, vars, a, v) && Operand(ar, vars, b, w) && i < |SIGNS| && sign in SIGNS[i]
    ensures EvaluatesTo(ar, vars, a + sign + b, x)
    ensures sign == "*" ==> x == ar.mul(v, w)
    ensures sign == "/" ==> x == ar.div(v, w)
    ensures sign == "+" ==> x == ar.add(v, w)
    ensures sign == "-" ==> x == ar.sub(v, w)
    ensures sign == "==" ==> x == if ar.eq(v, w) then ar.one else ar.zero
    ensures sign == "!=" ==> x == if ar.eq(v, w) then ar.zero else ar.one
    ensures sign == "<" ==> x == if ar.lt(v, w) then ar.one else ar.zero
    ensures sign == ">" ==> x == if ar.gt(v, w) then ar.one else ar.zero
    ensures sign == "<=" ==> x == if ar.le(v, w) then ar.one else ar.zero
    ensures sign == ">=" ==> x == if ar.ge(v, w) then ar.one else ar.zero
    ensures sign == "&&" ==> x == if ar.truth(v) && ar.truth(w) then ar.one else ar.zero
    ensures sign == "||" ==> x == if ar.truth(v) || ar.truth(w) then ar.one else ar.zero
  {
    var op := TokenOf(sign, i);
    PairIs(ar, vars, a, v, op, b, w);
    x := ApplyIs(ar, op, sign, v, w);
  }

  lemma SignStands(sign: Token, a: string, ts: seq<Token>)
    requires (sign == MINUS || sign == NOT) && Stands(a, ts)
    ensures Stands(Text(sign) + a, [sign] + ts)
  {
    SignFirst(sign, a, ts);
    assert ([sign] + ts)[|ts|] == ts[|ts| - 1];
    assert (Text(sign) + a)[0] == Text(sign)[0];
  }

  /** A factor after a sign, or after none, is a factor again. */
  lemma SignedStands<V>(ar: Arithmetic<V>, vars: map<string, V>, sign: string, a: string, t: Tree, v: V) returns (u: Tree, x: V)
    requires StandsFor(ar, vars, a, t, v) && (sign == "" || sign == "-" || sign == "!")
    ensures StandsFor(ar, vars, sign + a, u, x)
    ensures sign == "" ==> x == v
    ensures sign == "-" ==> x == ar.neg(v)
    ensures sign == "!" ==> x == if ar.truth(v) then ar.zero else ar.one
  {
    if sign == "" {
      EmptyLeft(a);
      u, x := t, v;
    } else if sign == "-" {
      SignStands(MINUS, a, Yield(t));
      u, x := Negated(t), ar.neg(v);
    } else {
      SignStands(NOT, a, Yield(t));
      u, x := Inverted(t), if ar.truth(v) then ar.zero else ar.one;
    }
  }

  /** An operand by itself, and after a sign. */
  lemma SignIs<V>(ar: Arithmetic<V>, vars: map<string, V>, sign: string, a: string, v: V) returns (x: V)
    requires Operand(ar, vars, a, v) && (sign == "" || sign == "-" || sign == "!")
    ensures EvaluatesTo(ar, vars, sign + a, x)
    ensures sign == "" ==> x == v
    ensures sign == "-" ==> x == ar.neg(v)
    ensures sign == "!" ==> x == if ar.truth(v) then ar.zero else ar.one
  {
    var t := OperandStands(ar, vars, a, v);
    var u;
    u, x := SignedStands(ar, vars, sign, a, t, v);
    IsEvaluated(ar, vars, sign + a, u, x);
  }

  lemma SignedPair<V>(ar: Arithmetic<V>, vars: map<string, V>, a: string, t: Tree, v: V, op: Token, b: string, u: Tree, w: V)
    requires StandsFor(ar, vars, a, t, v) && StandsFor(ar, vars, b, u, w) && LevelOf(op) > FACTOR
    ensures EvaluatesTo(ar, vars, a + Text(op) + b, Apply(ar, op, v, w))
    ensures EvaluatesTo(ar, vars, "(" + a + ")" + Text(op) + b, Apply(ar, op, v, w))
  {
    FactorsJoined(ar, vars, a, t, v, op, b, u, w);
    BracketStands(a, Yield(t));
    FactorsJoined(ar, vars, "(" + a + ")", Bracketed(t), v, op, b, u, w);
  }

  /** A sign belongs to the operand after it, whatever operator follows: brackets put there change nothing. */
  lemma SignBindsFirst<V>(ar: Arithmetic<V>, vars: map<string, V>, sign: string, a: string, v: V, i: nat, o: string, b: string, w: V)
    requires Operand(ar, vars, a, v) && Operand(ar, vars, b, w) && (sign == "-" || sign == "!") && i < |SIGNS| && o in SIGNS[i]
    ensures var plain := Evaluation(ar, vars, Tokens(sign + a + o + b));
            plain.Done? && plain == Evaluation(ar, vars, Tokens("(" + (sign + a) + ")" + o + b))
  {
    var op := TokenOf(o, i);
    var t := OperandStands(ar, vars, a, v);
    var u := OperandStands(ar, vars, b, w);
    var signed, x := SignedStands(ar, vars, sign, a, t, v);
    SignedPair(ar, vars, sign + a, signed, x, op, b, u, w);
  }

  // ---------- Three operands ----------

  /** Two operators, the first joined first. */
  lemma LeftFirst<V>(ar: Arithmetic<V>, vars: map<string, V>, a: string, v: V, op: Token, b: string, w: V, oq: Token, c: string, x: V)
    requires Operand(ar, vars, a, v) && Operand(ar, vars, b, w) && Operand(ar, vars, c, x)
    requires 0 < LevelOf(op) <= LevelOf(oq) && (LevelOf(op) < LevelOf(oq) || LevelOf(op) != PREDICATE)
    ensures EvaluatesTo(ar, vars, a + Text(op) + b + Text(oq) + c, Apply(ar, oq, Apply(ar, op, v, w), x))
  {
    var t := OperandStands(ar, vars, a, v);
    var u := OperandStands(ar, vars, b, w);
    var z := OperandStands(ar, vars, c, x);
    FactorsLeftFirst(ar, vars, a, t, v, op, b, u, w, oq, c, z, x);
  }

  lemma FactorsLeftFirst<V>(ar: Arithmetic<V>, vars: map<string, V>, a: string, t: Tree, v: V, op: Token, b: string, u: Tree, w: V,
                            oq: Token, c: string, z: Tree, x: V)
    requires StandsFor(ar, vars, a, t, v) && StandsFor(ar, vars, b, u, w) && StandsFor(ar, vars, c, z, x)
    requires 0 < LevelOf(op) <= LevelOf(oq) && (LevelOf(op) < LevelOf(oq) || LevelOf(op) != PREDICATE)
    ensures EvaluatesTo(ar, vars, a + Text(op) + b + Text(oq) + c, Apply(ar, oq, Apply(ar, op, v, w), x))
  {
    JoinStands(a, Yield(t), op, b, Yield(u));
    JoinStands(a + Text(op) + b, Yield(Joined(op, t, u)), oq, c, Yield(z));
    var all := Joined(oq, Joined(op, t, u), z);
    LeftShaped(ar, vars, t, v, op, u, w, oq, z, x);
    IsEvaluated(ar, vars, a + Text(op) + b + Text(oq) + c, all, Apply(ar, oq, Apply(ar, op, v, w), x));
  }

  lemma LeftShaped<V>(ar: Arithmetic<V>, vars: map<string, V>, t: Tree, v: V, op: Token, u: Tree, w: V, oq: Token, z: Tree, x: V)
    requires IsFactor(ar, vars, t, v) && IsFactor(ar, vars, u, w) && IsFactor(ar, vars, z, x)
    requires 0 < LevelOf(op) <= LevelOf(oq) && (LevelOf(op) < LevelOf(oq) || LevelOf(op) != PREDICATE)
    ensures var all := Joined(oq, Joined(op, t, u), z);
            Shaped(all, EXPRESSION) && Value(ar, vars, all) == Some(Apply(ar, oq, Apply(ar, op, v, w), x))
  {
  }

  /** Two operators, the second joined first. */
  lemma RightFirst<V>(ar: Arithmetic<V>, vars: map<string, V>, a: string, v: V, op: Token, b: string, w: V, oq: Token, c: string, x: V)
    requires Operand(ar, vars, a, v) && Operand(ar, vars, b, w) && Operand(ar, vars, c, x)
    requires 0 < LevelOf(oq) < LevelOf(op)
    ensures EvaluatesTo(ar, vars, a + Text(op) + b + Text(oq) + c, Apply(ar, op, v, Apply(ar, oq, w, x)))
  {
    var t := OperandStands(ar, vars, a, v);
    var u := OperandStands(ar, vars, b, w);
    var z := OperandStands(ar, vars, c, x);
    FactorsRightFirst(ar, vars, a, t, v, op, b, u, w, oq, c, z, x);
  }

  lemma FactorsRightFirst<V>(ar: Arithmetic<V>, vars: map<string, V>, a: string, t: Tree, v: V, op: Token, b: string, u: Tree, w: V,
                             oq: Token, c: string, z: Tree, x: V)
    requires StandsFor(ar, vars, a, t, v) && StandsFor(ar, vars, b, u, w) && StandsFor(ar, vars, c, z, x)
    requires 0 < LevelOf(oq) < LevelOf(op)
    ensures EvaluatesTo(ar, vars, a + Text(op) + b + Text(oq) + c, Apply(ar, op, v, Apply(ar, oq, w, x)))
  {
    JoinStands(b, Yield(u), oq, c, Yield(z));
    JoinStands(a, Yield(t), op, b + Text(oq) + c, Yield(Joined(oq, u, z)));
    Regroup(a, Text(op), b, Text(oq), c);
    RightShaped(ar, vars, t, v, op, u, w, oq, z, x);
    IsEvaluated(ar, vars, a + Text(op) + b + Text(oq) + c, Joined(op, t, Joined(oq, u, z)), Apply(ar, op, v, Apply(ar, oq, w, x)));
  }

  lemma RightShaped<V>(ar: Arithmetic<V>, vars: map<string, V>, t: Tree, v: V, op: Token, u: Tree, w: V, oq: Token, z: Tree, x: V)
    requires IsFactor(ar, vars, t, v) && IsFactor(ar, vars, u, w) && IsFactor(ar, vars, z, x) && 0 < LevelOf(oq) < LevelOf(op)
    ensures var all := Joined(op, t, Joined(oq, u, z));
            Shaped(all, EXPRESSION) && Value(ar, vars, all) == Some(Apply(ar, op, v, Apply(ar, oq, w, x)))
  {
  }

  lemma Regroup(a: string, o: string, b: string, p: string, c: string)
    ensures a + o + b + p + c == a + o + (b + p + c)
  {
  }

  lemma BracketedOperand<V>(ar: Arithmetic<V>, vars: map<string, V>, a: string, v: V)
    requires NUL !in a && EvaluatesTo(ar, vars, a, v)
    ensures Operand(ar, vars, "(" + a + ")", v)
  {
  }

  lemma FactorsInBrackets<V>(ar: Arithmetic<V>, vars: map<string, V>, a: string, t: Tree, v: V, op: Token, b: string, u: Tree, w: V)
    requires StandsFor(ar, vars, a, t, v) && StandsFor(ar, vars, b, u, w) && LevelOf(op) > FACTOR
    ensures Operand(ar, vars, "(" + (a + Text(op) + b) + ")", Apply(ar, op, v, w))
  {
    JoinStands(a, Yield(t), op, b, Yield(u));
    FactorsJoined(ar, vars, a, t, v, op, b, u, w);
    BracketedOperand(ar, vars, a + Text(op) + b, Apply(ar, op, v, w));
  }

  lemma PairInBrackets<V>(ar: Arithmetic<V>, vars: map<string, V>, a: string, v: V, op: Token, b: string, w: V)
    requires Operand(ar, vars, a, v) && Operand(ar, vars, b, w) && LevelOf(op) > FACTOR
    ensures Operand(ar, vars, "(" + (a + Text(op) + b) + ")", Apply(ar, op, v, w))
  {
    var t := OperandStands(ar, vars, a, v);
    var u := OperandStands(ar, vars, b, w);
    FactorsInBrackets(ar, vars, a, t, v, op, b, u, w);
  }

  /** Of two operators that which binds closer is joined first, and the first of those that bind alike: brackets put
      there change nothing. */
  lemma Grouping<V>(ar: Arithmetic<V>, vars: map<string, V>, a: string, v: V, i: nat, o: string, b: string, w: V, j: nat, p: string, c: string, x: V)
    requires Operand(ar, vars, a, v) && Operand(ar, vars, b, w) && Operand(ar, vars, c, x)
    requires i < |SIGNS| && o in SIGNS[i] && j < |SIGNS| && p in SIGNS[j] && !(i == j == COMPARISONS)
    ensures var plain := Evaluation(ar, vars, Tokens(a + o + b + p + c));
            var bracketed := if j < i then a + o + ("(" + (b + p + c) + ")") else "(" + (a + o + b) + ")" + p + c;
            plain.Done? && plain == Evaluation(ar, vars, Tokens(bracketed))
  {
    var op := TokenOf(o, i);
    var oq := TokenOf(p, j);
    if j < i {
      RightFirst(ar, vars, a, v, op, b, w, oq, c, x);
      PairInBrackets(ar, vars, b, w, oq, c, x);
      PairIs(ar, vars, a, v, op, "(" + (b + p + c) + ")", Apply(ar, oq, w, x));
    } else {
      LeftFirst(ar, vars, a, v, op, b, w, oq, c, x);
      PairInBrackets(ar, vars, a, v, op, b, w);
      PairIs(ar, vars, "(" + (a + o + b) + ")", Apply(ar, op, v, w), oq, c, x);
    }
  }

  /** Two comparisons in a row are refused. */
  lemma ComparisonsDoNotChain<V>(ar: Arithmetic<V>, vars: map<string, V>, a: string, v: V, o: string, b: string, w: V, p: string, c: string, x: V)
    requires Operand(ar, vars, a, v) && Operand(ar, vars, b, w) && Operand(ar, vars, c, x)
    requires o in SIGNS[COMPARISONS] && p in SIGNS[COMPARISONS]
    ensures Evaluation(ar, vars, Tokens(a + o + b + p + c)) == Failed("Parse error")
  {
    var op := TokenOf(o, COMPARISONS);
    var oq := TokenOf(p, COMPARISONS);
    var t := OperandStands(ar, vars, a, v);
    var u := OperandStands(ar, vars, b, w);
    var z := OperandStands(ar, vars, c, x);
    FactorsDoNotChain(ar, vars, a, t, v, op, b, u, w, oq, c, z, x);
  }

  lemma FactorsDoNotChain<V>(ar: Arithmetic<V>, vars: map<string, V>, a: string, t: Tree, v: V, op: Token, b: string, u: Tree, w: V,
                             oq: Token, c: string, z: Tree, x: V)
    requires StandsFor(ar, vars, a, t, v) && StandsFor(ar, vars, b, u, w) && StandsFor(ar, vars, c, z, x)
    requires LevelOf(op) == LevelOf(oq) == PREDICATE
    ensures Evaluation(ar, vars, Tokens(a + Text(op) + b + Text(oq) + c)) == Failed("Parse error")
  {
    var first, second := Yield(t) + ([op] + Yield(u)), [oq] + Yield(z);
    JoinStands(a, Yield(t), op, b, Yield(u));
    JoinStands(a + Text(op) + b, first, oq, c, Yield(z));
    TokensIffSpelt(a + Text(op) + b + Text(oq) + c, first + second);
    Assoc(first, second, [EOT]);
    Assoc([oq], Yield(z), [EOT]);
    StopsAtSecond(ar, vars, t, v, op, u, w, oq, Yield(z) + [EOT]);
  }

  lemma StopsAtSecond<V>(ar: Arithmetic<V>, vars: map<string, V>, t: Tree, v: V, op: Token, u: Tree, w: V, oq: Token, rest: seq<Token>)
    requires IsFactor(ar, vars, t, v) && IsFactor(ar, vars, u, w) && LevelOf(op) == LevelOf(oq) == PREDICATE
    ensures Evaluation(ar, vars, Yield(t) + ([op] + Yield(u)) + ([oq] + rest)) == Failed("Parse error")
  {
    var more := [oq] + rest;
    var ts := Yield(t) + ([op] + Yield(u)) + more;
    Assoc([op], Yield(u), more);
    Assoc(Yield(t), [op] + Yield(u), more);
    PredicateRead(ar, vars, t, v, op, u, w, more);
    LevelUp(ar, vars, EXPRESSION, ts, Apply(ar, op, v, w), more);
    NoMore(ar, vars, EXPRESSION, Apply(ar, op, v, w), more);
    YieldStarts(t, [op] + (Yield(u) + more));
  }

  /** The first comparison is read up to the second. */
  lemma PredicateRead<V>(ar: Arithmetic<V>, vars: map<string, V>, t: Tree, v: V, op: Token, u: Tree, w: V, more: seq<Token>)
    requires IsFactor(ar, vars, t, v) && IsFactor(ar, vars, u, w) && LevelOf(op) == LevelOf(Head(more)) == PREDICATE
    ensures ReadLevel(ar, vars, PREDICATE, Yield(t) + ([op] + (Yield(u) + more))) == Done(Apply(ar, op, v, w), more)
  {
    var operand := Yield(u) + more;
    TreeIsRead(ar, vars, t, SIDE, [op] + operand);
    NoMore(ar, vars, SIDE, v, [op] + operand);
    TreeIsRead(ar, vars, u, SIDE, more);
    NoMore(ar, vars, SIDE, w, more);
    YieldStarts(u, more);
    OneMore(ar, vars, PREDICATE, v, op, operand, w, more);
    LevelUp(ar, vars, PREDICATE, Yield(t) + ([op] + operand), v, [op] + operand);
  }

  // ---------- Numbers ----------

  lemma NumeralIsOperand<V>(ar: Arithmetic<V>, vars: map<string, V>, a: string)
    requires Numeral(a)
    ensures Operand(ar, vars, a, ar.number(a))
  {
  }

  /** So with numbers: minus takes the second from the first, times comes before plus, and minus groups to the left. */
  lemma NumbersAre<V>(ar: Arithmetic<V>, vars: map<string, V>, a: string, b: string, c: string)
    requires Numeral(a) && Numeral(b) && Numeral(c)
    ensures EvaluatesTo(ar, vars, a + "-" + b, ar.sub(ar.number(a), ar.number(b)))
    ensures EvaluatesTo(ar, vars, a + "+" + b + "*" + c, ar.add(ar.number(a), ar.mul(ar.number(b), ar.number(c))))
    ensures EvaluatesTo(ar, vars, a + "-" + b + "-" + c, ar.sub(ar.sub(ar.number(a), ar.number(b)), ar.number(c)))
  {
    NumeralIsOperand(ar, vars, a);
    NumeralIsOperand(ar, vars, b);
    NumeralIsOperand(ar, vars, c);
    PairIs(ar, vars, a, ar.number(a), MINUS, b, ar.number(b));
    RightFirst(ar, vars, a, ar.number(a), PLUS, b, ar.number(b), MUL, c, ar.number(c));
    LeftFirst(ar, vars, a, ar.number(a), MINUS, b, ar.number(b), MINUS, c, ar.number(c));
  }

  // ---------- White space, and what cannot be evaluated ----------

  /** Blanks, tabs and line breaks before a token make no difference. */
  lemma SpacesIgnored(spaces: string, s: string)
    requires forall c <- spaces :: c == ' ' || 9 <= c as int <= 13
    ensures Tokens(spaces + s) == Tokens(s)
  {
    assert SkipSpace(spaces + s) == SkipSpace(s) by { SpacesSkipped(spaces, s); }
    SpaceOnlyShortens(s);
    SpaceOnlyShortens(spaces + s);
  }

  lemma {:induction false} SpacesSkipped(spaces: string, s: string)
    requires forall c <- spaces :: c == ' ' || 9 <= c as int <= 13
    ensures SkipSpace(spaces + s) == SkipSpace(s)
  {
    if spaces == "" {
      EmptyLeft(s);
    } else {
      assert spaces[0] in spaces && forall c <- spaces[1..] :: c in spaces;
      assert (spaces + s)[0] == spaces[0] && (spaces + s)[1..] == spaces[1..] + s;
      SpacesSkipped(spaces[1..], s);
    }
  }

  /** A name that is not known. */
  lemma UnknownName<V>(ar: Arithmetic<V>, vars: map<string, V>, s: string)
    requires Name(s) && s !in vars
    ensures Evaluation(ar, vars, Tokens(s)) == Failed("No such variable '" + s + "'")
  {
    NameStands(s);
    TokensIffSpelt(s, [NAME(s)]);
    assert Tokens(s) == [NAME(s)] + [EOT];
    TermStartsWithFactor(ar, vars, Tokens(s));
    LevelFails(ar, vars, Tokens(s), "No such variable '" + s + "'");
  }

  lemma LevelFails<V>(ar: Arithmetic<V>, vars: map<string, V>, ts: seq<Token>, message: string)
    requires ReadFactor(ar, vars, ts) == Failed(message)
    ensures ReadLevel(ar, vars, EXPRESSION, ts) == Failed(message)
  {
    assert ReadLevel(ar, vars, FACTOR, ts) == Failed(message);
    assert ReadLevel(ar, vars, TERM, ts) == Failed(message);
    assert ReadLevel(ar, vars, SIDE, ts) == Failed(message);
    assert ReadLevel(ar, vars, PREDICATE, ts) == Failed(message);
  }

  /** Nothing at all, a bracket that is not closed, one that was not opened, and an operand after an operand. */
  lemma FailuresAre<V>(ar: Arithmetic<V>, vars: map<string, V>, a: string, v: V)
    requires Operand(ar, vars, a, v)
    ensures Evaluation(ar, vars, Tokens("")) == Failed("Unexpected end")
    ensures Evaluation(ar, vars, Tokens(")")) == Failed("Unrecognised token")
    ensures Evaluation(ar, vars, Tokens("(" + a)) == Failed("Mismatched parentheses")
    ensures Evaluation(ar, vars, Tokens(a + ")")) == Failed("Parse error")
  {
    assert Tokens("") == [EOT];
    LevelFails(ar, vars, [EOT], "Unexpected end");
    OneToken(")", RPAR);
    TokensIffSpelt(")", [RPAR]);
    LevelFails(ar, vars, [RPAR] + [EOT], "Unrecognised token");
    var t := OperandStands(ar, vars, a, v);
    NotClosed(ar, vars, a, t, v);
    NotOpened(ar, vars, a, t, v);
  }

  /** Half an operator, and a character that begins no token. */
  lemma BadCharacters<V>(ar: Arithmetic<V>, vars: map<string, V>)
    ensures Evaluation(ar, vars, Tokens("&")) == Failed("Single (bitwise) & not implemented")
    ensures Evaluation(ar, vars, Tokens("|")) == Failed("Single (bitwise) | not implemented")
    ensures Evaluation(ar, vars, Tokens("=")) == Failed("Assignment not implemented - use ==")
    ensures Evaluation(ar, vars, Tokens("$")) == Failed("Unrecognised token near '$'")
  {
    BadFirst("&", "Single (bitwise) & not implemented");
    BadFirst("|", "Single (bitwise) | not implemented");
    BadFirst("=", "Assignment not implemented - use ==");
    assert "Unrecognised token near '" + ['$'] + "'" == "Unrecognised token near '$'";
    BadFirst("$", "Unrecognised token near '$'");
  }

  lemma BadFirst(s: string, message: string)
    requires |s| == 1 && !IsSpace(s[0]) && Front(s) == (Bad(message), 1)
    ensures Tokens(s) == [Bad(message)]
  {
  }

  lemma NotClosed<V>(ar: Arithmetic<V>, vars: map<string, V>, a: string, t: Tree, v: V)
    requires StandsFor(ar, vars, a, t, v)
    ensures Evaluation(ar, vars, Tokens("(" + a)) == Failed("Mismatched parentheses")
  {
    SignFirst(LPAR, a, Yield(t));
    TokensIffSpelt("(" + a, [LPAR] + Yield(t));
    Assoc([LPAR], Yield(t), [EOT]);
    TreeIsRead(ar, vars, t, EXPRESSION, [EOT]);
    NoMore(ar, vars, EXPRESSION, v, [EOT]);
    YieldStarts(t, [EOT]);
    DropLeft([LPAR], Yield(t) + [EOT]);
    LevelFails(ar, vars, [LPAR] + (Yield(t) + [EOT]), "Mismatched parentheses");
  }

  lemma NotOpened<V>(ar: Arithmetic<V>, vars: map<string, V>, a: string, t: Tree, v: V)
    requires StandsFor(ar, vars, a, t, v)
    ensures Evaluation(ar, vars, Tokens(a + ")")) == Failed("Parse error")
  {
    OneToken(")", RPAR);
    EndsAtBracket(Yield(t));
    SpellsConcat(a, Yield(t), ")", [RPAR]);
    TokensIffSpelt(a + ")", Yield(t) + [RPAR]);
    Assoc(Yield(t), [RPAR], [EOT]);
    TreeIsRead(ar, vars, t, EXPRESSION, [RPAR] + [EOT]);
    NoMore(ar, vars, EXPRESSION, v, [RPAR] + [EOT]);
    YieldStarts(t, [RPAR] + [EOT]);
  }
}
