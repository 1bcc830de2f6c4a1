/** The expression evaluator's object (libs/expr/eval.cc): five mutually recursive methods that move one
    token at a time through the tokeniser. */
module Evaluators {
  import opened Options
  import opened Sequences
  import opened Tokenisers
  import opened Spellings
  import opened Grammars

  /** A value, or the message of the exception thrown. */
  datatype Result<+V> = Ok(value: V) | Thrown(message: string)

  class Evaluator<V> {
    const ar: Arithmetic<V>
    const vars: map<string, V>
    const tokeniser: Tokeniser
    var token: Token

    constructor (ar: Arithmetic<V>, vars: map<string, V>)
      ensures this.ar == ar && this.vars == vars && Valid() && fresh(tokeniser)
    {
      this.ar, this.vars, token := ar, vars, EOT;
      tokeniser := new Tokeniser();
    }

    ghost predicate Valid()
      reads this, tokeniser
    {
      tokeniser.Valid()
    }

    /** The tokens from the current one on. */
    ghost function Stream(): (ts: seq<Token>)
      reads this, tokeniser
      requires Valid()
      ensures ts != [] && Head(ts) == token
    {
      if token == EOT || token.Bad? then [token] else [token] + Tokens(tokeniser.Left())
    }

    /** Read the next token; it may be an exception. */
    method Next() returns (thrown: bool)
      requires Valid() && token != EOT && !token.Bad?
      modifies this`token, tokeniser`it
      ensures Valid() && thrown == Stuck(old(Stream())) && thrown == token.Bad?
      ensures Stream() == old(Stream())[1..]
    {
      DropLeft([token], Tokens(tokeniser.Left()));
      token := tokeniser.ReadToken();
      thrown := token.Bad?;
    }

    /** What was read is what the token list says, and the rest is still to read. */
    ghost predicate Reads(r: Result<V>, spec: Read<V>)
      reads this, tokeniser
      requires Valid()
    {
      match spec
      case Done(v, rest) => r == Ok(v) && Stream() == rest
      case Failed(m) => r == Thrown(m)
    }

    method ReadFactor() returns (r: Result<V>)
      requires Valid() && !token.Bad?
      modifies this`token, tokeniser`it
      ensures Valid() && Reads(r, Grammars.ReadFactor(ar, vars, old(Stream())))
      ensures r.Ok? ==> !token.Bad?
      decreases |Stream()|, 1
    {
      match token
      case MINUS => r := ReadSigned();
      case NOT => r := ReadSigned();
      case NUMBER(text) => r := MovePast(ar.number(text));
      case NAME(name) =>
        if name !in vars {
          return Thrown("No such variable '" + name + "'");
        }
        r := MovePast(vars[name]);
      case LPAR => r := ReadBrackets();
      case EOT => r := Thrown("Unexpected end");
      case _ => r := Thrown("Unrecognised token");
    }

    method MovePast(v: V) returns (r: Result<V>)
      requires Valid() && token != EOT && !token.Bad?
      modifies this`token, tokeniser`it
      ensures Valid() && Reads(r, Past(v, old(Stream())))
      ensures r.Ok? ==> !token.Bad?
    {
      var thrown := Next();
      r := if thrown then Thrown(token.message) else Ok(v);
    }

    method ReadSigned() returns (r: Result<V>)
      requires Valid() && token in {MINUS, NOT}
      modifies this`token, tokeniser`it
      ensures Valid() && Reads(r, Grammars.ReadFactor(ar, vars, old(Stream())))
      ensures r.Ok? ==> !token.Bad?
      decreases |Stream()|, 0
    {
      var sign := token;
      var thrown := Next();
      if thrown {
        return Thrown(token.message);
      }
      r := ReadFactor();
      if r.Ok? {
        r := Ok(if sign == MINUS then ar.neg(r.value) else Flag(ar, !ar.truth(r.value)));
      }
    }

    method ReadBrackets() returns (r: Result<V>)
      requires Valid() && token == LPAR
      modifies this`token, tokeniser`it
      ensures Valid() && Reads(r, Grammars.ReadFactor(ar, vars, old(Stream())))
      ensures r.Ok? ==> !token.Bad?
      decreases |Stream()|, 0
    {
      var thrown := Next();
      if thrown {
        return Thrown(token.message);
      }
      r := ReadExpression();
      if r.Ok? {
        if token != RPAR {
          return Thrown("Mismatched parentheses");
        }
        r := MovePast(r.value);
      }
    }

    /** Read a term: factors joined by * and /. */
    method ReadTerm() returns (r: Result<V>)
      requires Valid() && !token.Bad?
      modifies this`token, tokeniser`it
      ensures Valid() && Reads(r, ReadLevel(ar, vars, TERM, old(Stream())))
      ensures r.Ok? ==> !token.Bad?
      decreases |Stream()|, 2
    {
      ghost var goal := ReadLevel(ar, vars, TERM, Stream());
      TermStartsWithFactor(ar, vars, Stream());
      r := ReadFactor();
      if r.Ok? {
        r := JoinAll(TERM, r.value, goal);
      }
    }

    /** Read a side of a comparison: terms joined by + and -. */
    method ReadSide() returns (r: Result<V>)
      requires Valid() && !token.Bad?
      modifies this`token, tokeniser`it
      ensures Valid() && Reads(r, ReadLevel(ar, vars, SIDE, old(Stream())))
      ensures r.Ok? ==> !token.Bad?
      decreases |Stream()|, 3
    {
      ghost var goal := ReadLevel(ar, vars, SIDE, Stream());
      r := ReadTerm();
      if r.Ok? {
        r := JoinAll(SIDE, r.value, goal);
      }
    }

    /** Read a predicate: a side, or one comparison of two sides. */
    method ReadPredicate() returns (r: Result<V>)
      requires Valid() && !token.Bad?
      modifies this`token, tokeniser`it
      ensures Valid() && Reads(r, ReadLevel(ar, vars, PREDICATE, old(Stream())))
      ensures r.Ok? ==> !token.Bad?
      decreases |Stream()|, 4
    {
      ghost var goal := ReadLevel(ar, vars, PREDICATE, Stream());
      r := ReadSide();
      if r.Ok? {
        r := JoinOne(r.value, goal);
      }
    }

    /** One comparison, if there is one. */
    method JoinOne(v: V, ghost goal: Read<V>) returns (r: Result<V>)
      requires Valid() && !token.Bad? && goal == ReadMore(ar, vars, PREDICATE, v, Stream())
      modifies this`token, tokeniser`it
      ensures Valid() && Reads(r, goal)
      ensures r.Ok? ==> !token.Bad?
      decreases |Stream()|, 1
    {
      r := Ok(v);
      if token in {EQ, NE, LT, GT, LTEQ, GTEQ} {
        r := Join(PREDICATE, v, goal);
      }
    }

    /** Read an expression: predicates joined by && and ||, both sides always read. */
    method ReadExpression() returns (r: Result<V>)
      requires Valid() && !token.Bad?
      modifies this`token, tokeniser`it
      ensures Valid() && Reads(r, ReadLevel(ar, vars, EXPRESSION, old(Stream())))
      ensures r.Ok? ==> !token.Bad?
      decreases |Stream()|, 5
    {
      ghost var goal := ReadLevel(ar, vars, EXPRESSION, Stream());
      r := ReadPredicate();
      if r.Ok? {
        r := JoinAll(EXPRESSION, r.value, goal);
      }
    }

    /** As long as there is an operator of the level, join its operand to what came before. */
    method JoinAll(level: nat, v: V, ghost goal: Read<V>) returns (r: Result<V>)
      requires Valid() && !token.Bad? && level in {TERM, SIDE, EXPRESSION}
      requires goal == ReadMore(ar, vars, level, v, Stream())
      modifies this`token, tokeniser`it
      ensures Valid() && Reads(r, goal)
      ensures r.Ok? ==> !token.Bad?
      decreases |Stream()|, 1
    {
      ghost var n := |Stream()|;
      r := Ok(v);
      while r.Ok? && Joins(token, level)
        invariant Valid() && (r.Ok? ==> !token.Bad? && |Stream()| <= n)
        invariant if r.Ok? then goal == ReadMore(ar, vars, level, r.value, Stream()) else goal == Failed(r.message)
        decreases r.Ok?, |Stream()|
      {
        r := Join(level, r.value, goal);
      }
    }

    /** Read the operand after an operator of some level, one level down, and join it to what came before. */
    method Join(level: nat, v: V, ghost goal: Read<V>) returns (r: Result<V>)
      requires Valid() && level <= EXPRESSION && Joins(token, level)
      requires goal == ReadMore(ar, vars, level, v, Stream())
      modifies this`token, tokeniser`it
      ensures Valid() && (r.Ok? ==> !token.Bad? && |Stream()| < |old(Stream())|)
      ensures match r
              case Thrown(m) => goal == Failed(m)
              case Ok(u) => goal == if level == PREDICATE then Done(u, Stream()) else ReadMore(ar, vars, level, u, Stream())
      decreases |Stream()|, 0
    {
      var op := token;
      var thrown := Next();
      if thrown {
        return Thrown(token.message);
      }
      r := ReadOperand(level);
      if r.Ok? {
        r := Ok(Apply(ar, op, v, r.value));
      }
    }

    method ReadOperand(level: nat) returns (r: Result<V>)
      requires Valid() && !token.Bad? && 0 < level <= EXPRESSION
      modifies this`token, tokeniser`it
      ensures Valid() && Reads(r, ReadLevel(ar, vars, level - 1, old(Stream())))
      ensures r.Ok? ==> !token.Bad?
      decreases |Stream()|, 6
    {
      match level
      case 1 => r := ReadFactor();
      case 2 => r := ReadTerm();
      case 3 => r := ReadSide();
      case _ => r := ReadPredicate();
    }

    /** Evaluate a text: the value of the one tree of the grammar that it spells. */
    method Evaluate(expr: string) returns (r: Result<V>)
      modifies this, tokeniser
      ensures Valid()
      ensures r == match Evaluation(ar, vars, Tokens(expr))
                   case Done(v, _) => Ok(v)
                   case Failed(m) => Thrown(m)
      ensures forall t :: Shaped(t, EXPRESSION) && Spells(expr, Yield(t)) && Value(ar, vars, t).Some? ==>
                r == Ok(Value(ar, vars, t).value)
    {
      tokeniser.Reset(expr);
      token := tokeniser.ReadToken();
      ghost var ts := Tokens(expr);
      assert Stream() == ts;
      forall t | Shaped(t, EXPRESSION) && Spells(expr, Yield(t)) && Value(ar, vars, t).Some?
        ensures Evaluation(ar, vars, ts).Done? && Evaluation(ar, vars, ts).value == Value(ar, vars, t).value
      {
        TreeIsEvaluated(ar, vars, expr, t);
      }
      if token.Bad? {
        return Thrown(token.message);
      }
      r := ReadExpression();
      if r.Ok? && token != EOT {
        return Thrown("Parse error");
      }
    }
  }
}
