module TagRoles {
  // What each tag is for, said without the processor's states: what follows it is an expression, a comment or code;
  // and what is written for the usual tags.

  import opened Sequences
  import opened Templates
  import opened TemplateTexts
  import opened TokenRecognisers
  import opened Processors

  // ---------- The strip ----------

  /** Blanks and one newline are taken off, or blanks only if something else comes. */
  lemma {:induction false} StripIs(blanks: string, rest: string)
    requires forall c <- blanks :: c == ' ' || c == '\t'
    ensures StripEol(blanks + ("\n" + rest)) == rest
    ensures rest == "" || rest[0] !in {' ', '\t', '\n'} ==> StripEol(blanks + rest) == rest
  {
    if blanks == "" {
      EmptyLeft("\n" + rest);
      EmptyLeft(rest);
      DropLeft("\n", rest);
    } else {
      assert blanks[0] in blanks && forall c <- blanks[1..] :: c in blanks;
      StripIs(blanks[1..], rest);
      assert (blanks + ("\n" + rest))[1..] == blanks[1..] + ("\n" + rest);
      assert (blanks + rest)[1..] == blanks[1..] + rest;
    }
  }

  // ---------- Which tag opens ----------

  /** No other tag that begins with this one can be what the text starts with. */
  predicate NoneLonger(tag: string, others: set<string>, s: string) {
    forall u <- others :: !(tag <= u && (u <= s || s <= u))
  }

  function Others(tags: Tags, mode: Mode): set<string> {
    match mode
    case InText => {}
    case InCode => {tags.startExpr, tags.startComment}
    case InExpr => {tags.startCode, tags.startComment}
    case InComment => {tags.startCode, tags.startExpr}
  }

  lemma TagOpensBlock(tags: Tags, mode: Mode, s: string)
    requires mode != InText && StartTag(tags, mode) != "" && StartTag(tags, mode) <= s
    requires NoneLonger(StartTag(tags, mode), Others(tags, mode), s)
    ensures s != "" && !Partial(StartTokens(tags), s) && Opening(tags, s) == mode
  {
    var t := StartTag(tags, mode);
    StartTokensAre(tags);
    forall u <- StartTokens(tags) ensures !(s < u) && (u <= s ==> |u| <= |t|) {
      assert u == t || u in Others(tags, mode);
      assert u <= s && |u| >= |t| ==> t <= u;
    }
    assert Wins(tags, mode, s);
    forall m: Mode | m != InText && m != mode ensures !Wins(tags, m, s) {
      var u := StartTag(tags, m);
      assert u in Others(tags, mode) && (u <= s && |u| >= |t| ==> t <= u);
    }
  }

  lemma OpenedBlock(tags: Tags, mode: Mode, s: string, inner: string, later: string)
    requires mode != InText && StartTag(tags, mode) != "" && EndTag(tags, mode) != "" && StartTag(tags, mode) <= s
    requires NoneLonger(StartTag(tags, mode), Others(tags, mode), s)
    requires AfterOpen(tags, mode, s) == inner + EndTag(tags, mode) + later && EndsAtEnd(inner, EndTag(tags, mode))
    ensures Parse(tags, s) == [Block(mode, inner)] + Parse(tags, AfterClose(mode, later))
  {
    TagOpensBlock(tags, mode, s);
    BodyFound(inner, EndTag(tags, mode), later);
    BlockIs(tags, s, mode, inner, later);
  }

  lemma Regroup(start: string, body: string, end: string, later: string)
    ensures start + body + end + later == start + (body + end + later)
  {
  }

  /** Between the tags for expressions stands an expression; what follows is left as it is. */
  lemma ExpressionTags(tags: Tags, body: string, rest: string)
    requires tags.startExpr != "" && tags.endExpr != ""
    requires !(tags.startExpr <= tags.startCode) && !(tags.startExpr <= tags.startComment)
    requires forall i | 0 <= i < |body| :: !(tags.endExpr <= (body + tags.endExpr)[i..])
    ensures Parse(tags, tags.startExpr + body + tags.endExpr + rest) == [Block(InExpr, body)] + Parse(tags, rest)
  {
    Regroup(tags.startExpr, body, tags.endExpr, rest);
    DropLeft(tags.startExpr, body + tags.endExpr + rest);
    OpenedBlock(tags, InExpr, tags.startExpr + body + tags.endExpr + rest, body, rest);
  }

  /** Between the tags for comments stands a comment; blanks and a newline after it go. */
  lemma CommentTags(tags: Tags, body: string, rest: string)
    requires tags.startComment != "" && tags.endComment != ""
    requires !(tags.startComment <= tags.startCode) && !(tags.startComment <= tags.startExpr)
    requires forall i | 0 <= i < |body| :: !(tags.endComment <= (body + tags.endComment)[i..])
    ensures Parse(tags, tags.startComment + body + tags.endComment + rest) == [Block(InComment, body)] + Parse(tags, StripEol(rest))
  {
    Regroup(tags.startComment, body, tags.endComment, rest);
    DropLeft(tags.startComment, body + tags.endComment + rest);
    OpenedBlock(tags, InComment, tags.startComment + body + tags.endComment + rest, body, rest);
  }

  /** Between the tags for code stands code, without the blanks and the newline at its beginning; those after it go. */
  lemma CodeTags(tags: Tags, body: string, rest: string)
    requires tags.startCode != "" && tags.endCode != "" && NoWhite(tags.endCode)
    requires !(tags.startCode <= tags.startExpr) && !(tags.startCode <= tags.startComment)
    requires forall i | 0 <= i < |StripEol(body)| :: !(tags.endCode <= (StripEol(body) + tags.endCode)[i..])
    ensures Parse(tags, tags.startCode + body + tags.endCode + rest) == [Block(InCode, StripEol(body))] + Parse(tags, StripEol(rest))
  {
    StartTokensAre(tags);
    assert !Partial(StartTokens(tags), tags.startCode);
    Regroup(tags.startCode, body, tags.endCode, rest);
    DropLeft(tags.startCode, body + tags.endCode + rest);
    StripBody(body, tags.endCode, rest);
    OpenedBlock(tags, InCode, tags.startCode + body + tags.endCode + rest, StripEol(body), rest);
  }

  /** If a longer tag begins like the tag for code, and does not stand there, the first character of the code escapes. */
  lemma LateCodeTags(tags: Tags, body: string, rest: string)
    requires tags.startCode != "" && tags.endCode != "" && NoWhite(tags.endCode) && body != ""
    requires tags.startCode < tags.startExpr || tags.startCode < tags.startComment
    requires NoneLonger(tags.startCode, {tags.startExpr, tags.startComment}, tags.startCode + body + tags.endCode + rest)
    requires var code := [body[0]] + StripEol(body[1..]); forall i | 0 <= i < |code| :: !(tags.endCode <= (code + tags.endCode)[i..])
    ensures Parse(tags, tags.startCode + body + tags.endCode + rest) ==
            [Block(InCode, [body[0]] + StripEol(body[1..]))] + Parse(tags, StripEol(rest))
  {
    StartTokensAre(tags);
    assert Partial(StartTokens(tags), tags.startCode) by {
      var t := if tags.startCode < tags.startExpr then tags.startExpr else tags.startComment;
      assert t in StartTokens(tags);
    }
    Regroup(tags.startCode, body, tags.endCode, rest);
    DropLeft(tags.startCode, body + tags.endCode + rest);
    StripLate(body, tags.endCode, rest);
    OpenedBlock(tags, InCode, tags.startCode + body + tags.endCode + rest, [body[0]] + StripEol(body[1..]), rest);
  }

  // ---------- What is written for the usual tags ----------

  const USUAL := Tags("<?", "?>", "<?=", "?>", "<?#", "?>")

  /** What `Process` writes, with the usual tags. */
  function WrittenFor(name: string, input: string): string {
    Emit(name, Written("", false), Parse(USUAL, UpToNul(input)))
  }

  lemma {:induction false} NoNulKept(s: string)
    requires '\0' !in s
    ensures UpToNul(s) == s
  {
    if s != "" {
      assert s[0] in s && forall c <- s[1..] :: c in s;
      NoNulKept(s[1..]);
    }
  }

  /** A NUL ends the template. */
  lemma {:induction false} NulEnds(a: string, b: string)
    requires '\0' !in a
    ensures UpToNul(a + "\0" + b) == a
  {
    if a != "" {
      assert a[0] in a && forall c <- a[1..] :: c in a;
      assert (a + "\0" + b)[1..] == a[1..] + "\0" + b;
      NulEnds(a[1..], b);
    }
  }

  lemma EmitOne(name: string, item: Item)
    ensures Emit(name, Written("", false), [item] + []) == WriteClose(WriteItem(name, Written("", false), item)).text
  {
    EmitItem(name, Written("", false), item, []);
  }

  /** The body holds no end tag. */
  predicate NoEndIn(body: string) {
    '\0' !in body && forall i | 0 <= i < |body| :: !("?>" <= (body + "?>")[i..])
  }

  /** An expression is written into an output statement. */
  lemma UsualExpression(name: string, body: string)
    requires NoEndIn(body)
    ensures WrittenFor(name, "<?=" + body + "?>") == "  " + name + " << (" + body + ") << \"\";\n"
  {
    var s := "<?=" + body + "?>";
    NoNulKept(s);
    assert "<?="[2] != "<?#"[2];
    ExpressionTags(USUAL, body, "");
    assert s + "" == s;
    EmitOne(name, Block(InExpr, body));
    assert "" + ("  " + name + " << (") == "  " + name + " << (";
    assert ") << \"" + "\";\n" == ") << \"\";\n";
    Assoc("  " + name + " << (" + body, ") << \"", "\";\n");
  }

  /** A comment is not written. */
  lemma UsualComment(name: string, body: string)
    requires NoEndIn(body)
    ensures WrittenFor(name, "<?#" + body + "?>") == ""
  {
    var s := "<?#" + body + "?>";
    NoNulKept(s);
    assert "<?="[2] != "<?#"[2];
    CommentTags(USUAL, body, "");
    assert s + "" == s;
    EmitOne(name, Block(InComment, body));
  }

  /** Code is written as it is. */
  lemma UsualCode(name: string, body: string)
    requires NoEndIn(body) && body != "" && body[0] !in {'=', '#'} && (|body| > 1 ==> body[1] !in {' ', '\t', '\n'})
    ensures WrittenFor(name, "<?" + body + "?>") == body
  {
    var s := "<?" + body + "?>";
    NoNulKept(s);
    assert s + "" == s;
    assert s[2] == body[0];
    assert body == [body[0]] + body[1..];
    StripKeeps(body[1..]);
    LateCodeTags(USUAL, body, "");
    EmitOne(name, Block(InCode, body));
    EmptyLeft(body);
  }

  lemma {:induction false} NoEndFound(body: string)
    requires '?' !in body
    ensures Rest("?>", body).NoTail? && Body("?>", body) == body
  {
    if body != "" {
      assert body[0] in body && forall c <- body[1..] :: c in body;
      assert body[0] != "?>"[0];
      NoEndFound(body[1..]);
      assert body == [body[0]] + body[1..];
    }
  }

  lemma NeverClosed(mode: Mode, s: string, body: string)
    requires mode == InExpr || mode == InComment
    requires s == StartTag(USUAL, mode) + body && '?' !in body
    ensures Parse(USUAL, s) == [Unclosed(mode, body)]
  {
    var start := StartTag(USUAL, mode);
    assert "<?="[2] != "<?#"[2];
    DropLeft(start, body);
    TagOpensBlock(USUAL, mode, s);
    NoEndFound(body);
  }

  /** An expression that is never closed is written as far as it goes, and its statement stays open; a comment that is never
      closed is not written. */
  lemma UsualUnclosed(name: string, body: string)
    requires '?' !in body && '\0' !in body
    ensures WrittenFor(name, "<?=" + body) == "  " + name + " << (" + body
    ensures WrittenFor(name, "<?#" + body) == ""
  {
    NoNulKept("<?=" + body);
    NoNulKept("<?#" + body);
    NeverClosed(InExpr, "<?=" + body, body);
    NeverClosed(InComment, "<?#" + body, body);
    assert [Unclosed(InExpr, body)] + [] == [Unclosed(InExpr, body)];
    assert [Unclosed(InComment, body)] + [] == [Unclosed(InComment, body)];
    EmitOne(name, Unclosed(InExpr, body));
    EmitOne(name, Unclosed(InComment, body));
    assert "" + ("  " + name + " << (") == "  " + name + " << (";
  }

  // ---------- Text ----------

  /** No tag begins in it, and nothing needs an escape. */
  predicate Plain(text: string) {
    forall c <- text :: c !in {'<', '\n', '"', '\\', '\0'}
  }

  lemma UsualStarts()
    ensures forall t <- StartTokens(USUAL) :: t != "" && t[0] == '<'
  {
    TokensOfThree("<?", "<?=", "<?#");
  }

  lemma NotATag(text: string, i: nat)
    requires '<' !in text && i <= |text|
    ensures forall t <- StartTokens(USUAL) :: !(t <= text[i..])
    ensures i < |text| ==> !Partial(StartTokens(USUAL), text[i..])
  {
    UsualStarts();
    if i < |text| {
      assert text[i..][0] == text[i] && text[i] in text;
    }
  }

  lemma NoTagIn(text: string)
    requires '<' !in text && '\0' !in text
    ensures Parse(USUAL, UpToNul(text)) == Chars(text)
  {
    NoNulKept(text);
    forall i | 0 <= i <= |text|
      ensures forall t <- StartTokens(USUAL) :: !(t <= text[i..])
      ensures i < |text| ==> !Partial(StartTokens(USUAL), text[i..])
    {
      NotATag(text, i);
    }
    TextKeptIff(USUAL, text);
  }

  lemma {:induction false} PlainOn(name: string, w: string, text: string, last: seq<Item>)
    requires Plain(text)
    ensures Emit(name, Written(w, true), Chars(text) + last) == Emit(name, Written(w + text, true), last)
    decreases text
  {
    if text == "" {
      assert w + text == w;
      EmptyLeft(last);
    } else {
      var c, rest := text[0], text[1..];
      assert c in text && forall d <- rest :: d in text;
      Assoc([Char(c)], Chars(rest), last);
      EmitChar(name, Written(w, true), c, Chars(rest) + last);
      PlainOn(name, w + [c], rest, last);
      assert text == [c] + rest;
      Assoc(w, [c], rest);
    }
  }

  lemma {:induction false} CharsConcat(a: string, b: string)
    ensures Chars(a + b) == Chars(a) + Chars(b)
  {
    if a == "" {
      EmptyLeft(b);
    } else {
      assert (a + b)[1..] == a[1..] + b;
      CharsConcat(a[1..], b);
    }
  }

  lemma PlainStarts(name: string, text: string, last: seq<Item>)
    requires Plain(text) && text != ""
    ensures Emit(name, Written("", false), Chars(text) + last) == Emit(name, Written("  " + name + " << \"" + text, true), last)
  {
    var c, rest := text[0], text[1..];
    assert c in text && forall d <- rest :: d in text;
    Assoc([Char(c)], Chars(rest), last);
    EmitChar(name, Written("", false), c, Chars(rest) + last);
    var opening := "  " + name + " << \"";
    assert "" + "  " + name + " << \"" == opening;
    PlainOn(name, opening + [c], rest, last);
    assert text == [c] + rest;
    Assoc(opening, [c], rest);
  }

  /** A line of text is one output statement, which says whether the line ends. */
  lemma UsualLine(name: string, text: string)
    requires Plain(text) && text != ""
    ensures WrittenFor(name, text) == "  " + name + " << \"" + text + "\";\n"
    ensures WrittenFor(name, text + "\n") == "  " + name + " << \"" + text + "\\n\";\n"
  {
    var opening := "  " + name + " << \"" + text;
    NoTagIn(text);
    PlainStarts(name, text, []);
    assert Chars(text) + [] == Chars(text);
    NoTagIn(text + "\n");
    CharsConcat(text, "\n");
    PlainStarts(name, text, Chars("\n"));
    assert Chars("\n") == [Char('\n')] + [];
    EmitChar(name, Written(opening, true), '\n', []);
  }

  lemma OneChar(name: string, c: char)
    requires c != '<' && c != '\0'
    ensures WrittenFor(name, [c]) == WriteClose(WriteChar(name, Written("", false), c)).text
  {
    NoTagIn([c]);
    assert [c][1..] == "";
    assert Chars([c]) == [Char(c)] + [];
    EmitOne(name, Char(c));
  }

  lemma UsualEmptyLine(name: string)
    ensures WrittenFor(name, "\n") == "  " + name + " << endl;\n"
  {
    OneChar(name, '\n');
  }

  lemma UsualEscape(name: string, c: char)
    requires c == '"' || c == '\\'
    ensures WrittenFor(name, [c]) == "  " + name + " << \"" + ['\\', c] + "\";\n"
  {
    OneChar(name, c);
  }
}
