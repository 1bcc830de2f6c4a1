/** What the tokeniser accepts, said without scanning: which texts spell a list of tokens. */
module Spellings {
  import opened Sequences
  import opened Tokenisers

  predicate All(p: char -> bool, s: string) {
    forall c <- s :: p(c)
  }

  predicate IsName(text: string) {
    text != [] && IsAlpha(text[0]) && All(IsWord, text)
  }

  /** Digits, or digits, a point, and perhaps more digits. */
  predicate IsNumber(text: string) {
    exists n: nat | 0 < n <= |text| :: NumberSplitsAt(text, n)
  }

  predicate NumberSplitsAt(text: string, n: nat)
    requires n <= |text|
  {
    All(IsDigit, text[..n]) && (n == |text| || (text[n] == '.' && All(IsDigit, text[n + 1..])))
  }

  ghost predicate Proper(t: Token) {
    match t
    case EOT => false
    case Bad(_) => false
    case NAME(text) => IsName(text)
    case NUMBER(text) => IsNumber(text)
    case _ => true
  }

  /** How a token is written. */
  function Text(t: Token): string {
    match t
    case NAME(text) => text
    case NUMBER(text) => text
    case MUL => "*"
    case DIV => "/"
    case PLUS => "+"
    case MINUS => "-"
    case AND => "&&"
    case OR => "||"
    case NOT => "!"
    case EQ => "=="
    case LT => "<"
    case GT => ">"
    case LTEQ => "<="
    case GTEQ => ">="
    case NE => "!="
    case LPAR => "("
    case RPAR => ")"
    case _ => ""
  }

  /** The text after a token does not carry it on. */
  predicate Ends(t: Token, rest: string) {
    match t
    case NAME(_) => !IsWord(Peek(rest))
    case NUMBER(text) => !IsDigit(Peek(rest)) && ('.' in text || Peek(rest) != '.')
    case LT => Peek(rest) != '='
    case GT => Peek(rest) != '='
    case NOT => Peek(rest) != '='
    case _ => true
  }

  /** The text, up to its end or a NUL, is white space and these tokens, each one ending where the next
      white space or token begins. */
  ghost predicate Spells(s: string, ts: seq<Token>)
    decreases |ts|
  {
    var t := SkipSpace(s);
    if ts == [] then Peek(t) == NUL
    else
      && Proper(ts[0]) && Text(ts[0]) <= t && Ends(ts[0], t[|Text(ts[0])|..])
      && Spells(t[|Text(ts[0])|..], ts[1..])
  }

  // ---------- One token ----------

  lemma {:induction false} SpanIs(p: char -> bool, a: string, b: string)
    requires All(p, a) && (b == [] || !p(b[0]))
    ensures Span(p, a + b) == |a|
  {
    if a == [] {
      assert a + b == b;
    } else {
      assert (a + b)[1..] == a[1..] + b;
      SpanIs(p, a[1..], b);
    }
  }

  lemma {:induction false} SpanSplits(p: char -> bool, s: string)
    ensures var n := Span(p, s); All(p, s[..n]) && (n < |s| ==> !p(s[n]))
  {
    if s != [] && p(s[0]) {
      var m := Span(p, s[1..]);
      SpanSplits(p, s[1..]);
      assert s[..1 + m] == [s[0]] + s[1..][..m];
    }
  }

  /** A name is read exactly when the text starts with it and a name ends there. */
  lemma NameIff(s: string, text: string)
    ensures (s != [] && Front(s) == (NAME(text), |text|)) <==> IsName(text) && text <= s && Ends(NAME(text), s[|text|..])
  {
    if IsName(text) && text <= s && Ends(NAME(text), s[|text|..]) {
      assert s[1..] == text[1..] + s[|text|..];
      SpanIs(IsWord, text[1..], s[|text|..]);
      assert s[..|text|] == text;
    }
    if s != [] && Front(s) == (NAME(text), |text|) {
      var m := Span(IsWord, s[1..]);
      SpanSplits(IsWord, s[1..]);
      assert text == s[..1 + m] && text[1..] == s[1..][..m];
      forall c | c in text ensures IsWord(c) {
        assert c == text[0] || c in text[1..];
      }
    }
  }

  lemma NumberIsRead(s: string, text: string, n: nat)
    requires 0 < n <= |text| && NumberSplitsAt(text, n) && text <= s && Ends(NUMBER(text), s[|text|..])
    ensures Front(s) == (NUMBER(text), |text|)
  {
    var rest := s[|text|..];
    assert s == text + rest && s[..|text|] == text && IsDigit(text[..n][0]);
    if n == |text| {
      assert text[..n] == text && '.' !in text;
      SpanIs(IsDigit, text, rest);
    } else {
      assert s == text[..n] + s[n..] && s[n..][0] == '.' && s[n + 1..] == text[n + 1..] + rest;
      SpanIs(IsDigit, text[..n], s[n..]);
      SpanIs(IsDigit, text[n + 1..], rest);
    }
  }

  lemma ReadIsNumber(s: string, text: string)
    requires s != [] && Front(s) == (NUMBER(text), |text|)
    ensures IsNumber(text) && text <= s && Ends(NUMBER(text), s[|text|..])
  {
    var n := Span(IsDigit, s);
    SpanSplits(IsDigit, s);
    assert n > 0 && text[..n] == s[..n];
    if Peek(s[n..]) == '.' {
      SpanSplits(IsDigit, s[n + 1..]);
      assert text[n] == '.' && text[n + 1..] == s[n + 1..][..|text| - n - 1];
    }
    assert NumberSplitsAt(text, n);
  }

  /** A number is read exactly when the text starts with it and a number ends there. */
  lemma NumberIff(s: string, text: string)
    ensures (s != [] && Front(s) == (NUMBER(text), |text|)) <==>
            IsNumber(text) && text <= s && Ends(NUMBER(text), s[|text|..])
  {
    if IsNumber(text) && text <= s && Ends(NUMBER(text), s[|text|..]) {
      var n: nat :| 0 < n <= |text| && NumberSplitsAt(text, n);
      NumberIsRead(s, text, n);
    }
    if s != [] && Front(s) == (NUMBER(text), |text|) {
      ReadIsNumber(s, text);
    }
  }

  ghost predicate IsSign(t: Token) {
    Proper(t) && !t.NAME? && !t.NUMBER?
  }

  /** One character ahead decides between signs. */
  predicate SignAhead(t: Token, c: char, next: char)
    requires Text(t) != ""
  {
    && c == Text(t)[0]
    && if |Text(t)| == 2 then next == Text(t)[1] else t == LT || t == GT || t == NOT ==> next != '='
  }

  lemma OperatorIff(t: Token, c: char, next: char)
    requires IsSign(t) && !IsAlpha(c) && !IsDigit(c) && c != NUL
    ensures Operator(c, next) == (t, |Text(t)|) <==> SignAhead(t, c, next)
  {
    if |Text(t)| == 2 {
      TwoCharSign(t, c, next);
    }
  }

  lemma TwoCharSign(t: Token, c: char, next: char)
    requires IsSign(t) && |Text(t)| == 2
    ensures Operator(c, next) == (t, 2) <==> c == Text(t)[0] && next == Text(t)[1]
  {
  }

  lemma FrontIsOperator(s: string, t: Token)
    requires IsSign(t) && s != []
    ensures Front(s).0 == t ==> !IsAlpha(s[0]) && !IsDigit(s[0]) && s[0] != NUL
    ensures !IsAlpha(s[0]) && !IsDigit(s[0]) && s[0] != NUL ==> Front(s) == Operator(s[0], Peek(s[1..]))
  {
  }

  lemma SignStarts(s: string, t: Token)
    requires IsSign(t)
    ensures Text(t) <= s && Ends(t, s[|Text(t)|..]) <==> s != [] && SignAhead(t, s[0], Peek(s[1..]))
    ensures var c := Text(t)[0]; !IsAlpha(c) && !IsDigit(c) && c != NUL
  {
    var text := Text(t);
    if |text| == 1 {
      assert text <= s <==> s != [] && s[0] == text[0];
    } else {
      assert text <= s <==> |s| >= 2 && s[0] == text[0] && s[1] == text[1];
    }
  }

  /** The other tokens are read exactly when the text starts with their sign and no longer sign. */
  lemma SignIff(s: string, t: Token)
    requires IsSign(t)
    ensures (s != [] && Front(s) == (t, |Text(t)|)) <==> Text(t) <= s && Ends(t, s[|Text(t)|..])
  {
    SignStarts(s, t);
    if s != [] {
      FrontIsOperator(s, t);
      if !IsAlpha(s[0]) && !IsDigit(s[0]) && s[0] != NUL {
        OperatorIff(t, s[0], Peek(s[1..]));
      }
    }
  }

  lemma TokenIff(s: string, t: Token)
    requires Proper(t)
    ensures (s != [] && Front(s) == (t, |Text(t)|)) <==> Text(t) <= s && Ends(t, s[|Text(t)|..])
  {
    match t {
      case NAME(text) => NameIff(s, text);
      case NUMBER(text) => NumberIff(s, text);
      case _ => SignIff(s, t);
    }
  }

  lemma FrontIsProper(s: string)
    requires s != [] && Front(s).0 != EOT && !Front(s).0.Bad?
    ensures Proper(Front(s).0) && Front(s).1 == |Text(Front(s).0)|
  {
    var (t, n) := Front(s);
    match t {
      case NAME(text) => NameIff(s, text);
      case NUMBER(text) => NumberIff(s, text);
      case _ =>
    }
  }

  // ---------- All tokens ----------

  /** The tokeniser reads exactly the lists of tokens that the text spells. */
  lemma {:induction false} TokensIffSpelt(s: string, ts: seq<Token>)
    ensures Tokens(s) == ts + [EOT] <==> Spells(s, ts)
    decreases |s|
  {
    SpaceOnlyShortens(s);
    var t := SkipSpace(s);
    var (token, rest) := Lex(s);
    if ts == [] {
      assert [] + [EOT] == [EOT];
      if token != EOT && !token.Bad? {
        assert Tokens(s)[0] == token;
      }
    } else {
      assert (ts + [EOT])[1..] == ts[1..] + [EOT];
      if token == EOT || token.Bad? {
        assert |ts + [EOT]| > 1;
        if Proper(ts[0]) {
          TokenIff(t, ts[0]);
        }
      } else {
        FrontIsProper(t);
        TokenIff(t, token);
        TokensIffSpelt(rest, ts[1..]);
        assert Tokens(s)[0] == token && Tokens(s)[1..] == Tokens(rest);
        if Proper(ts[0]) {
          TokenIff(t, ts[0]);
        }
      }
    }
  }

  // ---------- Writing tokens down ----------

  /** These two tokens would run together without a space. */
  predicate NeedSpace(a: Token, b: Token) {
    || (a.NAME? && (b.NAME? || b.NUMBER?))
    || (a.NUMBER? && b.NUMBER?)
    || (a in {LT, GT, NOT} && b == EQ)
  }

  datatype Spaced = Spaced(before: string, token: Token)

  function Render(items: seq<Spaced>, after: string): string {
    if items == [] then after else items[0].before + Text(items[0].token) + Render(items[1..], after)
  }

  function TokensOf(items: seq<Spaced>): seq<Token> {
    if items == [] then [] else [items[0].token] + TokensOf(items[1..])
  }

  /** White space anywhere, and at least where two tokens would run together. */
  ghost predicate WellSpaced(items: seq<Spaced>) {
    && (forall i | 0 <= i < |items| :: Proper(items[i].token) && All(IsSpace, items[i].before))
    && (forall i | 0 < i < |items| :: NeedSpace(items[i - 1].token, items[i].token) ==> items[i].before != [])
  }

  lemma {:induction false} SkipSpaces(a: string, b: string)
    requires All(IsSpace, a) && (b == [] || !IsSpace(b[0]))
    ensures SkipSpace(a + b) == b
  {
    if a == [] {
      assert a + b == b;
    } else {
      assert (a + b)[1..] == a[1..] + b;
      SkipSpaces(a[1..], b);
    }
  }

  lemma TextStarts(t: Token)
    requires Proper(t)
    ensures Text(t) != [] && !IsSpace(Text(t)[0]) && Text(t)[0] != NUL
    ensures IsAlpha(Text(t)[0]) <==> t.NAME?
    ensures IsDigit(Text(t)[0]) <==> t.NUMBER?
    ensures Text(t)[0] != '.' && Text(t)[0] != '_' && (Text(t)[0] == '=' <==> t == EQ)
  {
    match t {
      case NUMBER(text) =>
        var n: nat :| 0 < n <= |text| && NumberSplitsAt(text, n);
        assert IsDigit(text[..n][0]);
      case _ =>
    }
  }

  lemma {:induction false} EndsAtRender(t: Token, items: seq<Spaced>, after: string)
    requires Proper(t) && All(IsSpace, after) && WellSpaced(items)
    requires items != [] && NeedSpace(t, items[0].token) ==> items[0].before != []
    ensures Ends(t, Render(items, after))
  {
    var s := Render(items, after);
    if items != [] {
      TextStarts(items[0].token);
      var rest := Text(items[0].token) + Render(items[1..], after);
      Assoc(items[0].before, Text(items[0].token), Render(items[1..], after));
      if items[0].before != [] {
        assert s[0] == items[0].before[0] && IsSpace(s[0]);
      } else {
        EmptyLeft(rest);
        assert s[0] == Text(items[0].token)[0];
      }
    } else if after != [] {
      assert IsSpace(after[0]);
    }
  }

  lemma {:induction false} RenderSpells(items: seq<Spaced>, after: string)
    requires WellSpaced(items) && All(IsSpace, after)
    ensures Spells(Render(items, after), TokensOf(items))
    decreases |items|
  {
    if items == [] {
      SkipSpaces(after, []);
      assert after + [] == after;
    } else {
      var text, rest := Text(items[0].token), Render(items[1..], after);
      TextStarts(items[0].token);
      Assoc(items[0].before, text, rest);
      SkipSpaces(items[0].before, text + rest);
      DropLeft(text, rest);
      forall i | 0 < i < |items[1..]|
        ensures NeedSpace(items[1..][i - 1].token, items[1..][i].token) ==> items[1..][i].before != []
      {
        assert items[1..][i - 1] == items[i] && items[1..][i] == items[i + 1];
      }
      EndsAtRender(items[0].token, items[1..], after);
      RenderSpells(items[1..], after);
      assert TokensOf(items)[1..] == TokensOf(items[1..]);
    }
  }

  /** Writing a list of tokens and reading it back gives the list. */
  lemma ReadBack(items: seq<Spaced>, after: string)
    requires WellSpaced(items) && All(IsSpace, after)
    ensures Tokens(Render(items, after)) == TokensOf(items) + [EOT]
  {
    RenderSpells(items, after);
    TokensIffSpelt(Render(items, after), TokensOf(items));
  }

  /** Without the space two such tokens are never read back. */
  lemma RunTogether(a: Token, b: Token)
    requires Proper(a) && Proper(b) && NeedSpace(a, b)
    ensures Tokens(Text(a) + Text(b)) != [a, b, EOT]
  {
    TextStarts(a);
    TextStarts(b);
    DropLeft(Text(a), Text(b));
    assert SkipSpace(Text(a) + Text(b)) == Text(a) + Text(b);
    assert IsWord(Text(b)[0]) <==> b.NAME? || b.NUMBER?;
    assert !Ends(a, Text(b));
    TokensIffSpelt(Text(a) + Text(b), [a, b]);
    assert [a, b] + [EOT] == [a, b, EOT];
  }
}
