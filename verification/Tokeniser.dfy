/** The expression tokeniser (libs/expr/token.cc, libs/expr/ot-expr.h).

    `Lex` is one read: white space passed over, and the token at the front of what follows, as long as it
    can be.  `Tokens` reads on up to the end of the text or the first exception.

    The class moves an iterator through its input with `Getc`, `Peekc` and `Step`, and each of its methods is
    proved to take what these functions say. */
module Tokenisers {
  import opened Sequences

  /** A number keeps its text.  Bad stands for the exception thrown when a token cannot be read. */
  datatype Token =
    | EOT | NUMBER(text: string) | NAME(name: string)
    | MUL | DIV | PLUS | MINUS | AND | OR | NOT
    | EQ | LT | GT | LTEQ | GTEQ | NE | LPAR | RPAR
    | Bad(message: string)

  const NUL := '\0'

  predicate IsSpace(c: char) {
    c == ' ' || '\t' <= c <= '\r'
  }

  predicate IsAlpha(c: char) {
    'a' <= c <= 'z' || 'A' <= c <= 'Z'
  }

  predicate IsDigit(c: char) {
    '0' <= c <= '9'
  }

  predicate IsWord(c: char) {
    IsAlpha(c) || IsDigit(c) || c == '_'
  }

  // ---------- What one read does ----------

  function SkipSpace(s: string): string {
    if s != [] && IsSpace(s[0]) then SkipSpace(s[1..]) else s
  }

  /** How many characters at the front satisfy `p`. */
  function Span(p: char -> bool, s: string): (n: nat)
    ensures n <= |s|
  {
    if s != [] && p(s[0]) then 1 + Span(p, s[1..]) else 0
  }

  /** Next character, or NUL at the end. */
  function Peek(s: string): char {
    if s == [] then NUL else s[0]
  }

  function NumberLength(s: string): (n: nat)
    ensures n <= |s|
  {
    var n := Span(IsDigit, s);
    if Peek(s[n..]) == '.' then n + 1 + Span(IsDigit, s[n + 1..]) else n
  }

  function Operator(c: char, next: char): (Token, nat) {
    match c
    case '+' => (PLUS, 1)
    case '-' => (MINUS, 1)
    case '*' => (MUL, 1)
    case '/' => (DIV, 1)
    case '(' => (LPAR, 1)
    case ')' => (RPAR, 1)
    case '&' => if next == '&' then (AND, 2) else (Bad("Single (bitwise) & not implemented"), 1)
    case '|' => if next == '|' then (OR, 2) else (Bad("Single (bitwise) | not implemented"), 1)
    case '=' => if next == '=' then (EQ, 2) else (Bad("Assignment not implemented - use =="), 1)
    case '<' => if next == '=' then (LTEQ, 2) else (LT, 1)
    case '>' => if next == '=' then (GTEQ, 2) else (GT, 1)
    case '!' => if next == '=' then (NE, 2) else (NOT, 1)
    case _ => (Bad("Unrecognised token near '" + [c] + "'"), 1)
  }

  /** The token at the front of text that does not start with white space, and its length. */
  function Front(s: string): (r: (Token, nat))
    ensures r.1 <= |s| && (s != [] ==> r.1 > 0) && (s == [] ==> r.0 == EOT)
  {
    if s == [] then (EOT, 0)
    else if s[0] == NUL then (EOT, 1)
    else if IsAlpha(s[0]) then
      var n := 1 + Span(IsWord, s[1..]);
      (NAME(s[..n]), n)
    else if IsDigit(s[0]) then (NUMBER(s[..NumberLength(s)]), NumberLength(s))
    else Operator(s[0], Peek(s[1..]))
  }

  /** One read: the token, and the text left. */
  function Lex(s: string): (r: (Token, string))
    ensures |r.1| <= |s| && (r.0 != EOT ==> |r.1| < |s|)
  {
    SpaceOnlyShortens(s);
    var t := SkipSpace(s);
    var (token, n) := Front(t);
    (token, t[n..])
  }

  lemma {:induction false} SpaceOnlyShortens(s: string)
    ensures |SkipSpace(s)| <= |s| && (SkipSpace(s) != [] ==> !IsSpace(SkipSpace(s)[0]))
  {
    if s != [] && IsSpace(s[0]) {
      SpaceOnlyShortens(s[1..]);
    }
  }

  /** All tokens, up to and including the end of text or the first exception. */
  function Tokens(s: string): (r: seq<Token>)
    ensures r != []
    decreases |s|
  {
    var (token, rest) := Lex(s);
    if token == EOT || token.Bad? then [token] else [token] + Tokens(rest)
  }

  lemma Split(all: string, a: string, n: nat, m: nat)
    requires n + m <= |all| && all[..n] == a
    ensures all[..n + m] == a + all[n..][..m] && all[n..][m..] == all[n + m..]
  {
    assert all[..n + m] == all[..n] + all[n..][..m];
  }

  lemma DigitAdded(c: char, left: string)
    requires IsDigit(c)
    ensures var n := Span(IsDigit, left); var all := [c] + left;
            Span(IsDigit, all) == n + 1 && all[..n + 1] == [c] + left[..n] && all[n + 1..] == left[n..]
  {
    assert ([c] + left)[1..] == left;
  }

  /** What reading a number comes to, given the digits ahead: after a point, some more. */
  function NumberRead(whole: string, rest: string): (r: (Token, string)) {
    if Peek(rest) != '.' then (NUMBER(whole), rest)
    else
      var m := Span(IsDigit, rest[1..]);
      (NUMBER(whole + ['.'] + rest[1..][..m]), rest[1..][m..])
  }

  lemma PointSlices(s: string, n: nat, m: nat)
    requires n + 1 + m <= |s| && s[n] == '.'
    ensures s[..n + 1 + m] == s[..n] + ['.'] + s[n + 1..][..m] && s[n + 1 + m..] == s[n + 1..][m..]
  {
    assert s[..n + 1] == s[..n] + ['.'];
    Split(s, s[..n + 1], n + 1, m);
  }

  /** Reading a number, by its first digits and what follows them. */
  lemma NumberReadIs(s: string, n: nat)
    requires n == Span(IsDigit, s)
    ensures (NUMBER(s[..NumberLength(s)]), s[NumberLength(s)..]) == NumberRead(s[..n], s[n..])
  {
    if Peek(s[n..]) == '.' {
      assert s[n..][1..] == s[n + 1..];
      PointSlices(s, n, Span(IsDigit, s[n + 1..]));
    }
  }

  lemma NumberPieces(c: char, left: string)
    requires IsDigit(c)
    ensures var all, n := [c] + left, Span(IsDigit, left);
            (Front(all).0, all[Front(all).1..]) == NumberRead([c] + left[..n], left[n..])
  {
    var all := [c] + left;
    DigitAdded(c, left);
    NumberReadIs(all, Span(IsDigit, left) + 1);
  }

  // ---------- The tokeniser ----------

  class Tokeniser {
    var input: string
    var it: nat

    ghost predicate Valid()
      reads this
    {
      it <= |input|
    }

    /** The text not read yet. */
    ghost function Left(): string
      reads this
      requires Valid()
    {
      input[it..]
    }

    constructor ()
      ensures Valid() && Left() == []
    {
      input, it := [], 0;
    }

    method Reset(text: string)
      modifies this
      ensures Valid() && Left() == text
    {
      input, it := text, 0;
    }

    method Getc() returns (c: char)
      requires Valid()
      modifies this`it
      ensures Valid() && c == Peek(old(Left()))
      ensures Left() == if old(Left()) == [] then [] else old(Left())[1..]
    {
      if it == |input| {
        return NUL;
      }
      c := input[it];
      it := it + 1;
    }

    method Peekc() returns (c: char)
      requires Valid()
      ensures c == Peek(Left())
    {
      c := if it == |input| then NUL else input[it];
    }

    method Step()
      requires Valid()
      modifies this`it
      ensures Valid() && Left() == if old(Left()) == [] then [] else old(Left())[1..]
    {
      if it != |input| {
        it := it + 1;
      }
    }

    /** Append to `text` the characters ahead that satisfy `p`. */
    method Collect(p: char -> bool, text: string) returns (r: string)
      requires Valid() && !p(NUL)
      modifies this`it
      ensures var n := Span(p, old(Left()));
              Valid() && r == text + old(Left())[..n] && Left() == old(Left())[n..]
    {
      r := text;
      ghost var all, k := Left(), 0;
      var c := Peekc();
      while p(c)
        invariant Valid() && k <= |all| && Left() == all[k..] && r == text + all[..k] && c == Peek(Left())
        invariant Span(p, all) == k + Span(p, Left())
        decreases |Left()|
      {
        assert all[..k + 1] == all[..k] + [c];
        Assoc(text, all[..k], [c]);
        r := r + [c];
        Step();
        k := k + 1;
        c := Peekc();
      }
    }

    method ReadNumber(c: char) returns (token: Token)
      requires Valid() && IsDigit(c)
      modifies this`it
      ensures var all := [c] + old(Left());
              Valid() && token == Front(all).0 && Left() == all[Front(all).1..]
    {
      NumberPieces(c, Left());
      var value := Collect(IsDigit, [c]);
      var next := Peekc();
      if next == '.' {
        Step();
        value := Collect(IsDigit, value + ['.']);
      }
      return NUMBER(value);
    }

    method ReadOperator(c: char) returns (token: Token)
      requires Valid() && c != NUL
      modifies this`it
      ensures var (t, n) := Operator(c, Peek(old(Left())));
              Valid() && token == t && (!t.Bad? ==> Left() == ([c] + old(Left()))[n..])
      ensures token.Bad? ==> Left() == old(Left())
    {
      ghost var left := Left();
      assert ([c] + left)[1..] == left;
      assert left != [] ==> ([c] + left)[2..] == left[1..];
      var next := Peekc();
      match c
      case '+' => return PLUS;
      case '-' => return MINUS;
      case '*' => return MUL;
      case '/' => return DIV;
      case '(' => return LPAR;
      case ')' => return RPAR;
      case '&' =>
        if next != c { return Bad("Single (bitwise) & not implemented"); }
        Step();
        return AND;
      case '|' =>
        if next != c { return Bad("Single (bitwise) | not implemented"); }
        Step();
        return OR;
      case '=' =>
        if next != c { return Bad("Assignment not implemented - use =="); }
        Step();
        return EQ;
      case '<' =>
        if next == '=' { Step(); return LTEQ; }
        return LT;
      case '>' =>
        if next == '=' { Step(); return GTEQ; }
        return GT;
      case '!' =>
        if next == '=' { Step(); return NE; }
        return NOT;
      case _ => return Bad("Unrecognised token near '" + [c] + "'");
    }

    method SkipToToken() returns (c: char)
      requires Valid()
      modifies this`it
      ensures Valid() && c == Peek(SkipSpace(old(Left())))
      ensures var t := SkipSpace(old(Left())); Left() == if t == [] then [] else t[1..]
    {
      ghost var t := Left();
      c := Getc();
      while IsSpace(c)
        invariant Valid() && SkipSpace(t) == SkipSpace(old(Left()))
        invariant c == Peek(t) && Left() == if t == [] then [] else t[1..]
        decreases |t|
      {
        t := Left();
        c := Getc();
      }
    }

    method ReadName(c: char, ghost t: string) returns (token: Token)
      requires Valid() && t == [c] + Left()
      modifies this`it
      ensures var n := 1 + Span(IsWord, t[1..]); Valid() && token == NAME(t[..n]) && Left() == t[n..]
    {
      ghost var left := Left();
      assert t[1..] == left;
      var name := Collect(IsWord, [c]);
      assert [c] + left[..Span(IsWord, left)] == t[..1 + Span(IsWord, left)];
      return NAME(name);
    }

    method ReadToken() returns (token: Token)
      requires Valid()
      modifies this`it
      ensures Valid() && (token, Left()) == Lex(old(Left()))
    {
      ghost var t := SkipSpace(Left());
      var c := SkipToToken();
      assert t != [] ==> t == [c] + Left();
      if IsAlpha(c) {
        token := ReadName(c, t);
      } else if IsDigit(c) {
        token := ReadNumber(c);
      } else if c == NUL {
        return EOT;
      } else {
        token := ReadOperator(c);
      }
    }
  }
}
