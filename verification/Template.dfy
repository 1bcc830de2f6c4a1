/** What a template means, what the program compiled from it does, and how that program is written. */
module Templates {
  import opened Sequences
  import opened TokenRecognisers

  /** The processor's four states; the last three also name the three kinds of tag. */
  datatype Mode = InText | InCode | InExpr | InComment

  datatype Tags = Tags(startCode: string, endCode: string, startExpr: string, endExpr: string,
                       startComment: string, endComment: string)

  function StartTag(tags: Tags, mode: Mode): string {
    match mode
    case InText => ""
    case InCode => tags.startCode
    case InExpr => tags.startExpr
    case InComment => tags.startComment
  }

  function EndTag(tags: Tags, mode: Mode): string {
    match mode
    case InText => ""
    case InCode => tags.endCode
    case InExpr => tags.endExpr
    case InComment => tags.endComment
  }

  /** The tokens left after empty ones are ignored. */
  function Tokens(all: seq<string>): seq<string> {
    if all == [] then []
    else Tokens(all[..|all| - 1]) + (if all[|all| - 1] == "" then [] else [all[|all| - 1]])
  }

  function StartTokens(tags: Tags): seq<string> {
    Tokens([tags.startCode, tags.startExpr, tags.startComment])
  }

  lemma TokensOfThree(a: string, b: string, c: string)
    ensures Tokens([a, b, c]) == (if a == "" then [] else [a]) + (if b == "" then [] else [b]) + (if c == "" then [] else [c])
  {
    var all := [a, b, c];
    assert all[..2] == [a, b] && [a, b][..1] == [a] && [a][..0] == [];
    assert Tokens(all) == Tokens([a, b]) + (if c == "" then [] else [c]);
    assert Tokens([a, b]) == Tokens([a]) + (if b == "" then [] else [b]);
    assert Tokens([a]) == (if a == "" then [] else [a]);
  }

  lemma StartTokensAre(tags: Tags)
    ensures forall t :: t in StartTokens(tags) <==> t != "" && (t == tags.startCode || t == tags.startExpr || t == tags.startComment)
  {
    TokensOfThree(tags.startCode, tags.startExpr, tags.startComment);
  }

  // ---------- Parsing a template into items ----------

  datatype Item = Char(c: char) | Block(mode: Mode, body: string) | Unclosed(mode: Mode, body: string)

  /** The text is the start, but not the whole, of some token. */
  predicate Partial(tokens: seq<string>, s: string) {
    exists t <- tokens :: s < t
  }

  /** The text starts with this tag and with no longer one. */
  predicate Wins(tags: Tags, mode: Mode, s: string) {
    var t := StartTag(tags, mode);
    && t != "" && t <= s
    && forall u <- StartTokens(tags) | u <= s :: |u| <= |t|
  }

  function Opening(tags: Tags, s: string): Mode {
    if Wins(tags, InCode, s) then InCode
    else if Wins(tags, InExpr, s) then InExpr
    else if Wins(tags, InComment, s) then InComment
    else InText
  }

  /** Blanks and then one newline, if it comes next. */
  function StripEol(s: string): (r: string)
    ensures |r| <= |s|
  {
    if s == "" then s
    else if s[0] == ' ' || s[0] == '\t' then StripEol(s[1..])
    else if s[0] == '\n' then s[1..]
    else s
  }

  /** Where the block's body starts.  A code tag that is the start of another tag is recognised one
      character late, and that character escapes the strip. */
  function AfterOpen(tags: Tags, mode: Mode, s: string): (r: string)
    requires StartTag(tags, mode) <= s
    ensures |r| <= |s| - |StartTag(tags, mode)|
  {
    var rest := s[|StartTag(tags, mode)|..];
    if mode != InCode || rest == "" then rest
    else if Partial(StartTokens(tags), tags.startCode) then [rest[0]] + StripEol(rest[1..])
    else StripEol(rest)
  }

  function AfterClose(mode: Mode, s: string): (r: string)
    ensures |r| <= |s|
  {
    if mode == InExpr then s else StripEol(s)
  }

  /** The part of a block before its end tag; an unfinished end tag at the end of input is lost. */
  function Body(end: string, s: string): string {
    if s < end || (end != "" && end <= s) || s == "" then "" else [s[0]] + Body(end, s[1..])
  }

  datatype Tail = NoTail | Tail(text: string)

  /** What follows the first end tag, if there is one. */
  function Rest(end: string, s: string): (r: Tail)
    ensures r.Tail? ==> |r.text| <= |s| - |end|
  {
    if end != "" && end <= s then Tail(s[|end|..])
    else if s == "" then NoTail
    else Rest(end, s[1..])
  }

  function Parse(tags: Tags, s: string): seq<Item>
    decreases |s|
  {
    if s == "" || Partial(StartTokens(tags), s) then []
    else
      var mode := Opening(tags, s);
      if mode == InText then [Char(s[0])] + Parse(tags, s[1..])
      else
        var inner := AfterOpen(tags, mode, s);
        var body := Body(EndTag(tags, mode), inner);
        match Rest(EndTag(tags, mode), inner)
        case NoTail => [Unclosed(mode, body)]
        case Tail(text) => [Block(mode, body)] + Parse(tags, AfterClose(mode, text))
  }

  /** The end tag found is the first one: the body, the tag and the tail make up the input, and no
      end tag starts earlier. */
  lemma {:induction false} RestIsFirst(end: string, s: string)
    requires Rest(end, s).Tail?
    ensures s == Body(end, s) + end + Rest(end, s).text
    ensures forall i :: 0 <= i < |Body(end, s)| ==> !(end <= s[i..])
  {
    if !(end != "" && end <= s) {
      RestIsFirst(end, s[1..]);
      RestOrPartial(end, s);
      var body := Body(end, s[1..]);
      assert s == [s[0]] + s[1..];
      assert Body(end, s) == [s[0]] + body;
      assert end != "" by { RestNeedsEnd(end, s); }
      forall i | 0 <= i < |Body(end, s)| ensures !(end <= s[i..]) {
        if i == 0 {
          assert s[0..] == s;
        } else {
          assert s[i..] == s[1..][i - 1..];
        }
      }
    }
  }

  lemma RestNeedsEnd(end: string, s: string)
    ensures Rest(end, s).Tail? ==> end != "" && |s| >= |end|
  {
  }

  lemma RestOrPartial(end: string, s: string)
    ensures Rest(end, s).Tail? ==> !(s < end)
  {
    RestNeedsEnd(end, s);
  }

  /** When no end tag is found, none occurs anywhere. */
  lemma {:induction false} NoRestNoEnd(end: string, s: string, i: nat)
    requires end != "" && Rest(end, s).NoTail? && i <= |s|
    ensures !(end <= s[i..])
  {
    if i == 0 {
      assert s[0..] == s;
    } else {
      NoRestNoEnd(end, s[1..], i - 1);
      assert s[i..] == s[1..][i - 1..];
    }
  }

  // ---------- The C++ text written for a list of items ----------

  function Escape(c: char): string {
    if c == '\n' then "\\n"
    else if c == '"' || c == '\\' then ['\\', c]
    else [c]
  }

  /** The output so far, and whether an output statement is open in it. */
  datatype Written = Written(text: string, started: bool)

  /** The text of an output statement up to where its first literal starts. */
  function Opened(name: string, w: Written): string {
    if w.started then w.text else w.text + "  " + name + " << \""
  }

  function WriteChar(name: string, w: Written, c: char): Written {
    if !w.started && c == '\n' then Written(w.text + "  " + name + " << endl;\n", false)
    else
      if c == '\n' then Written(Opened(name, w) + "\\n\";\n", false) else Written(Opened(name, w) + Escape(c), true)
  }

  function WriteClose(w: Written): Written {
    Written(if w.started then w.text + "\";\n" else w.text, false)
  }

  function ExprOpening(name: string, started: bool): string {
    if started then "\" << (" else "  " + name + " << ("
  }

  function WriteOpenExpr(name: string, w: Written): Written {
    Written(w.text + ExprOpening(name, w.started), true)
  }

  function WriteItem(name: string, w: Written, item: Item): Written {
    match item
    case Char(c) => WriteChar(name, w, c)
    case Block(mode, body) =>
      if mode == InCode then Written(WriteClose(w).text + body, false)
      else if mode == InExpr then Written(WriteOpenExpr(name, w).text + body + ") << \"", true)
      else w
    case Unclosed(mode, body) =>
      if mode == InCode then Written(WriteClose(w).text + body, false)
      else if mode == InExpr then Written(WriteOpenExpr(name, w).text + body, false)
      else Written(w.text, false)
  }

  /** Everything written for the items after `w`, with the last statement closed. */
  function Emit(name: string, w: Written, items: seq<Item>): string
    decreases items
  {
    if items == [] then WriteClose(w).text else Emit(name, WriteItem(name, w, items[0]), items[1..])
  }

  // ---------- The emitted program, and what it does ----------

  /** A piece of an output statement: the source of a string literal, or an expression. */
  datatype Piece = Literal(source: string) | Expression(source: string)

  datatype Statement = Endl | Output(pieces: seq<Piece>) | Raw(code: string)

  function PrintPiece(p: Piece): string {
    match p
    case Literal(source) => "\"" + source + "\""
    case Expression(source) => "(" + source + ")"
  }

  function PrintPieces(pieces: seq<Piece>): string {
    if pieces == [] then ""
    else PrintPieces(pieces[..|pieces| - 1]) + " << " + PrintPiece(pieces[|pieces| - 1])
  }

  function PrintStatement(name: string, s: Statement): string {
    match s
    case Endl => "  " + name + " << endl;\n"
    case Output(pieces) => "  " + name + PrintPieces(pieces) + ";\n"
    case Raw(code) => code
  }

  function PrintProgram(name: string, program: seq<Statement>): string {
    if program == [] then ""
    else PrintProgram(name, program[..|program| - 1]) + PrintStatement(name, program[|program| - 1])
  }

  datatype Effect = Print(c: char) | Show(expression: string) | Do(code: string)

  datatype Decoded = Malformed | Decoded(text: string)

  /** The characters a C++ string literal stands for, for the escapes the processor writes.  An
      unescaped quote or newline, or a lone backslash, is malformed. */
  function Decode(source: string): Decoded {
    if source == "" then Decoded("")
    else if source[0] == '"' || source[0] == '\n' then Malformed
    else if source[0] == '\\' then
      if |source| == 1 then Malformed
      else
        var c := source[1];
        if c != 'n' && c != '"' && c != '\\' then Malformed
        else match Decode(source[2..])
          case Malformed => Malformed
          case Decoded(text) => Decoded([if c == 'n' then '\n' else c] + text)
    else match Decode(source[1..])
      case Malformed => Malformed
      case Decoded(text) => Decoded([source[0]] + text)
  }

  predicate WellFormed(program: seq<Statement>) {
    forall s <- program | s.Output? :: s.pieces != [] && forall p <- s.pieces | p.Literal? :: Decode(p.source).Decoded?
  }

  function Prints(text: string): seq<Effect> {
    if text == "" then [] else [Print(text[0])] + Prints(text[1..])
  }

  function RunPiece(p: Piece): seq<Effect> {
    match p
    case Literal(source) => (match Decode(source) case Malformed => [] case Decoded(text) => Prints(text))
    case Expression(source) => [Show(source)]
  }

  function RunPieces(pieces: seq<Piece>): seq<Effect> {
    if pieces == [] then [] else RunPieces(pieces[..|pieces| - 1]) + RunPiece(pieces[|pieces| - 1])
  }

  function RunStatement(s: Statement): seq<Effect> {
    match s
    case Endl => [Print('\n')]
    case Output(pieces) => RunPieces(pieces)
    case Raw(code) => [Do(code)]
  }

  function Run(program: seq<Statement>): seq<Effect> {
    if program == [] then [] else Run(program[..|program| - 1]) + RunStatement(program[|program| - 1])
  }

  /** What the template asks for: text printed, expressions shown, code run, comments gone. */
  function ItemMeaning(item: Item): seq<Effect> {
    if item.Char? then [Print(item.c)]
    else if item.mode == InCode then [Do(item.body)]
    else if item.mode == InExpr then [Show(item.body)]
    else []
  }

  function Meaning(items: seq<Item>): seq<Effect> {
    if items == [] then [] else ItemMeaning(items[0]) + Meaning(items[1..])
  }

  /** No expression or comment is left open at the end of the template (open code may be). */
  predicate Complete(items: seq<Item>) {
    items == [] || ((items[0].Unclosed? ==> items[0].mode == InCode && |items| == 1) && Complete(items[1..]))
  }

  /** The statements finished so far, and the pieces of the one that is open; an open statement ends
      with a literal whose quote is not closed yet. */
  datatype Draft = Draft(done: seq<Statement>, pieces: seq<Piece>)

  predicate Started(d: Draft) {
    d.pieces != [] ==> d.pieces[|d.pieces| - 1].Literal?
  }

  function Append(pieces: seq<Piece>, source: string): seq<Piece>
    requires Started(Draft([], pieces))
  {
    if pieces == [] then [Literal(source)]
    else pieces[..|pieces| - 1] + [Literal(pieces[|pieces| - 1].source + source)]
  }

  function Finish(d: Draft): seq<Statement> {
    if d.pieces == [] then d.done else d.done + [Output(d.pieces)]
  }

  function CompileItem(d: Draft, item: Item): (r: Draft)
    requires Started(d)
    ensures Started(r)
  {
    if item.Char? then
      if d.pieces == [] && item.c == '\n' then Draft(d.done + [Endl], [])
      else
        var after := d.(pieces := Append(d.pieces, Escape(item.c)));
        if item.c == '\n' then Draft(Finish(after), []) else after
    else if item.mode == InCode then Draft(Finish(d) + [Raw(item.body)], [])
    else if item.mode == InExpr then d.(pieces := d.pieces + [Expression(item.body), Literal("")])
    else d
  }

  function Compile(d: Draft, items: seq<Item>): seq<Statement>
    requires Started(d)
    decreases items
  {
    if items == [] then Finish(d) else Compile(CompileItem(d, items[0]), items[1..])
  }

  /** What has been written of an open statement: everything but the closing quote. */
  function OpenText(name: string, pieces: seq<Piece>): string
    requires Started(Draft([], pieces))
  {
    if pieces == [] then ""
    else "  " + name + PrintPieces(pieces[..|pieces| - 1]) + " << \"" + pieces[|pieces| - 1].source
  }

  predicate Matches(name: string, w: Written, d: Draft) {
    && Started(d)
    && w.started == (d.pieces != [])
    && w.text == PrintProgram(name, d.done) + OpenText(name, d.pieces)
  }

  lemma PrintSnoc(name: string, program: seq<Statement>, s: Statement)
    ensures PrintProgram(name, program + [s]) == PrintProgram(name, program) + PrintStatement(name, s)
  {
    assert (program + [s])[..|program|] == program;
  }

  lemma CloseMatches(name: string, w: Written, d: Draft)
    requires Matches(name, w, d)
    ensures WriteClose(w).text == PrintProgram(name, Finish(d))
  {
    if w.started {
      PrintSnoc(name, d.done, Output(d.pieces));
      var init, source := d.pieces[..|d.pieces| - 1], d.pieces[|d.pieces| - 1].source;
      assert PrintStatement(name, Output(d.pieces)) == "  " + name + (PrintPieces(init) + " << " + ("\"" + source + "\"")) + ";\n";
      GlueClose("  " + name, PrintPieces(init), source);
      Assoc(PrintProgram(name, d.done), OpenText(name, d.pieces), "\";\n");
    }
  }

  lemma GlueClose(head: string, before: string, source: string)
    ensures head + before + " << \"" + source + "\";\n" == head + (before + " << " + ("\"" + source + "\"")) + ";\n"
  {
    assert " << " + "\"" == " << \"";
    assert "\"" + ";\n" == "\";\n";
  }

  /** Text added to the open statement, or opening one. */
  lemma TextMatches(name: string, w: Written, d: Draft, source: string)
    requires Matches(name, w, d)
    ensures Matches(name, Written(Opened(name, w) + source, true), d.(pieces := Append(d.pieces, source)))
  {
    var after := Append(d.pieces, source);
    var before := PrintProgram(name, d.done);
    assert after[..|after| - 1] == if d.pieces == [] then [] else d.pieces[..|d.pieces| - 1];
    if d.pieces == [] {
      GlueOpen(before, name, source);
    } else {
      Assoc("  " + name + PrintPieces(d.pieces[..|d.pieces| - 1]) + " << \"", d.pieces[|d.pieces| - 1].source, source);
      Assoc(before, OpenText(name, d.pieces), source);
    }
  }

  lemma GlueOpen(before: string, name: string, source: string)
    ensures before + "" + "  " + name + " << \"" + source == before + ("  " + name + "" + " << \"" + source)
  {
  }

  lemma CharMatches(name: string, w: Written, d: Draft, c: char)
    requires Matches(name, w, d)
    ensures Matches(name, WriteChar(name, w, c), CompileItem(d, Char(c)))
  {
    if d.pieces == [] && c == '\n' {
      PrintSnoc(name, d.done, Endl);
      GlueEndl(PrintProgram(name, d.done), name);
    } else {
      TextMatches(name, w, d, Escape(c));
      if c == '\n' {
        CloseMatches(name, Written(Opened(name, w) + Escape(c), true), d.(pieces := Append(d.pieces, Escape(c))));
        assert "\\n" + "\";\n" == "\\n\";\n";
        Assoc(Opened(name, w), "\\n", "\";\n");
      }
    }
  }

  lemma GlueEndl(before: string, name: string)
    ensures before + "" + "  " + name + " << endl;\n" == before + ("  " + name + " << endl;\n") + ""
  {
  }

  lemma ExprMatches(name: string, w: Written, d: Draft, body: string)
    requires Matches(name, w, d)
    ensures Matches(name, WriteItem(name, w, Block(InExpr, body)), CompileItem(d, Block(InExpr, body)))
  {
    ExprText(name, d.pieces, body);
    var opening := ExprOpening(name, w.started);
    Assoc(w.text, opening, body);
    Assoc(w.text, opening + body, ") << \"");
    Assoc(PrintProgram(name, d.done), OpenText(name, d.pieces), opening + body + ") << \"");
  }

  lemma ExprText(name: string, pieces: seq<Piece>, body: string)
    requires Started(Draft([], pieces))
    ensures OpenText(name, pieces + [Expression(body), Literal("")])
         == OpenText(name, pieces) + (ExprOpening(name, pieces != []) + body + ") << \"")
  {
    var front := pieces + [Expression(body)];
    var after := pieces + [Expression(body), Literal("")];
    assert after[..|after| - 1] == front && front[..|front| - 1] == pieces;
    var head := "  " + name;
    assert OpenText(name, after) == head + (PrintPieces(pieces) + " << " + ("(" + body + ")")) + " << \"" + "";
    if pieces != [] {
      var init, source := pieces[..|pieces| - 1], pieces[|pieces| - 1].source;
      Glue(head, PrintPieces(init), source, body);
    }
  }

  lemma Glue(head: string, before: string, source: string, body: string)
    ensures head + ((before + " << " + ("\"" + source + "\"")) + " << " + ("(" + body + ")")) + " << \"" + ""
         == (head + before + " << \"" + source) + ("\" << (" + body + ") << \"")
  {
    assert " << " + "\"" == " << \"";
    assert "\"" + " << " + "(" == "\" << (";
    assert ")" + " << \"" == ") << \"";
  }

  /** The text written for a template is exactly its compiled program, printed: every statement that
      is started is closed. */
  lemma {:induction false} EmitPrintsProgram(name: string, w: Written, d: Draft, items: seq<Item>)
    requires Matches(name, w, d) && Complete(items)
    ensures Emit(name, w, items) == PrintProgram(name, Compile(d, items))
    decreases items
  {
    if items == [] {
      CloseMatches(name, w, d);
    } else {
      var item := items[0];
      if item.Char? {
        CharMatches(name, w, d, item.c);
      } else if item.mode == InCode {
        CloseMatches(name, w, d);
        PrintSnoc(name, Finish(d), Raw(item.body));
      } else if item.mode == InExpr {
        ExprMatches(name, w, d, item.body);
      }
      EmitPrintsProgram(name, WriteItem(name, w, item), CompileItem(d, item), items[1..]);
    }
  }

  lemma DecodeAlone(c: char)
    ensures Decode(Escape(c)) == Decoded([c])
  {
    if |Escape(c)| == 2 {
      assert Escape(c)[2..] == "";
    } else {
      assert Escape(c)[1..] == "";
    }
  }

  /** Escaping a character at the end of a literal adds exactly that character to its text. */
  lemma {:induction false} DecodeEscape(source: string, c: char)
    requires Decode(source).Decoded?
    ensures Decode(source + Escape(c)) == Decoded(Decode(source).text + [c])
  {
    if source == "" {
      EmptyLeft(Escape(c));
      DecodeAlone(c);
    } else {
      var n := if source[0] == '\\' then 2 else 1;
      DecodeEscape(source[n..], c);
      DecodeFirst(source, n);
      DecodeFirst(source + Escape(c), n);
      assert (source + Escape(c))[n..] == source[n..] + Escape(c);
      assert (source + Escape(c))[..n] == source[..n];
    }
  }

  /** The first character of a literal, or its first escape. */
  lemma DecodeFirst(source: string, n: nat)
    requires source != "" && n == (if source[0] == '\\' then 2 else 1) && n <= |source|
    requires source[0] != '"' && source[0] != '\n' && (n == 2 ==> source[1] == 'n' || source[1] == '"' || source[1] == '\\')
    ensures Decode(source) == match Decode(source[n..])
                              case Malformed => Malformed
                              case Decoded(text) => Decoded([if n == 1 then source[0] else if source[1] == 'n' then '\n' else source[1]] + text)
  {
  }

  predicate Decodes(pieces: seq<Piece>) {
    forall p <- pieces | p.Literal? :: Decode(p.source).Decoded?
  }

  lemma {:induction false} PrintsAppend(text: string, c: char)
    ensures Prints(text + [c]) == Prints(text) + [Print(c)]
  {
    if text == "" {
      assert text + [c] == [c];
    } else {
      assert (text + [c])[1..] == text[1..] + [c];
      PrintsAppend(text[1..], c);
    }
  }

  lemma AppendRuns(pieces: seq<Piece>, c: char)
    requires Started(Draft([], pieces)) && Decodes(pieces)
    ensures Decodes(Append(pieces, Escape(c)))
    ensures RunPieces(Append(pieces, Escape(c))) == RunPieces(pieces) + [Print(c)]
  {
    var after := Append(pieces, Escape(c));
    var source := if pieces == [] then "" else pieces[|pieces| - 1].source;
    assert after[..|after| - 1] == if pieces == [] then [] else pieces[..|pieces| - 1];
    assert Decode(source).Decoded? by {
      if pieces != [] { assert pieces[|pieces| - 1] in pieces; }
    }
    DecodeEscape(source, c);
    PrintsAppend(Decode(source).text, c);
    assert source + Escape(c) == if pieces == [] then Escape(c) else source + Escape(c);
  }

  lemma RunSnoc(program: seq<Statement>, s: Statement)
    ensures Run(program + [s]) == Run(program) + RunStatement(s)
  {
    assert (program + [s])[..|program|] == program;
  }

  predicate Sound(d: Draft) {
    Started(d) && Decodes(d.pieces) && WellFormed(d.done)
  }

  function Effects(d: Draft): seq<Effect> {
    Run(d.done) + RunPieces(d.pieces)
  }

  lemma FinishRuns(d: Draft)
    requires Sound(d)
    ensures WellFormed(Finish(d)) && Run(Finish(d)) == Effects(d)
  {
    if d.pieces != [] {
      RunSnoc(d.done, Output(d.pieces));
    }
  }

  lemma CharRuns(d: Draft, c: char)
    requires Sound(d)
    ensures Sound(CompileItem(d, Char(c))) && Effects(CompileItem(d, Char(c))) == Effects(d) + [Print(c)]
  {
    if d.pieces == [] && c == '\n' {
      RunSnoc(d.done, Endl);
    } else {
      AppendRuns(d.pieces, c);
      FinishRuns(d.(pieces := Append(d.pieces, Escape(c))));
      Assoc(Run(d.done), RunPieces(d.pieces), [Print(c)]);
    }
  }

  lemma ExprRuns(pieces: seq<Piece>, body: string)
    requires Decodes(pieces)
    ensures var after := pieces + [Expression(body), Literal("")];
      Decodes(after) && RunPieces(after) == RunPieces(pieces) + [Show(body)]
  {
    var front := pieces + [Expression(body)];
    var after := pieces + [Expression(body), Literal("")];
    assert after[..|after| - 1] == front && front[..|front| - 1] == pieces;
  }

  lemma ItemRuns(d: Draft, item: Item)
    requires Sound(d)
    ensures Sound(CompileItem(d, item)) && Effects(CompileItem(d, item)) == Effects(d) + ItemMeaning(item)
  {
    if item.Char? {
      CharRuns(d, item.c);
    } else if item.mode == InCode {
      FinishRuns(d);
      RunSnoc(Finish(d), Raw(item.body));
    } else if item.mode == InExpr {
      ExprRuns(d.pieces, item.body);
      Assoc(Run(d.done), RunPieces(d.pieces), [Show(item.body)]);
    }
  }

  /** Running the compiled program has exactly the effect of the template: its string pieces decode
      to the text, and expressions and code come in their places. */
  lemma {:induction false} CompiledMeaning(d: Draft, items: seq<Item>)
    requires Sound(d)
    ensures WellFormed(Compile(d, items)) && Run(Compile(d, items)) == Effects(d) + Meaning(items)
    decreases items
  {
    if items == [] {
      FinishRuns(d);
    } else {
      ItemRuns(d, items[0]);
      CompiledMeaning(CompileItem(d, items[0]), items[1..]);
      Assoc(Effects(d), ItemMeaning(items[0]), Meaning(items[1..]));
    }
  }

  // ---------- What of the input is kept ----------

  function Chars(s: string): seq<Item> {
    if s == "" then [] else [Char(s[0])] + Chars(s[1..])
  }

  /** Text with no start tag in it is kept, character by character, if and only if it does not end
      with the beginning of a tag. */
  lemma {:induction false} TextKeptIff(tags: Tags, s: string)
    requires forall i, t | 0 <= i <= |s| && t in StartTokens(tags) :: !(t <= s[i..])
    ensures Parse(tags, s) == Chars(s) <==> forall i | 0 <= i < |s| :: !Partial(StartTokens(tags), s[i..])
  {
    if s == "" {
    } else if Partial(StartTokens(tags), s) {
      assert s[0..] == s;
      assert Chars(s) != [];
    } else {
      forall t <- StartTokens(tags) ensures !(t <= s) {
        assert s[0..] == s;
        assert !(t <= s[0..]);
      }
      StartTokensAre(tags);
      assert forall m: Mode :: StartTag(tags, m) != "" ==> StartTag(tags, m) in StartTokens(tags);
      assert !Wins(tags, InCode, s) && !Wins(tags, InExpr, s) && !Wins(tags, InComment, s);
      assert forall i :: 0 <= i <= |s[1..]| ==> s[1..][i..] == s[i + 1..];
      TextKeptIff(tags, s[1..]);
      assert Chars(s)[1..] == Chars(s[1..]);
      assert Parse(tags, s)[1..] == Parse(tags, s[1..]);
      if forall i | 0 <= i < |s[1..]| :: !Partial(StartTokens(tags), s[1..][i..]) {
        forall i | 0 <= i < |s| ensures !Partial(StartTokens(tags), s[i..]) {
          if i > 0 { assert s[i..] == s[1..][i - 1..]; }
        }
      }
    }
  }

  predicate IsWhite(c: char) {
    c == ' ' || c == '\t' || c == '\n'
  }

  function DropWhite(s: string): string {
    if s != "" && IsWhite(s[0]) then DropWhite(s[1..]) else s
  }

  lemma DropAfterStrip(s: string)
    ensures DropWhite(StripEol(s)) == DropWhite(s)
  {
  }

  /** Code after a start tag that was recognised one character late keeps everything but leading
      white space if and only if that character is white, or the one after it is not. */
  lemma CodeKeptIff(tags: Tags, s: string)
    requires tags.startCode <= s && Partial(StartTokens(tags), tags.startCode) && |s| > |tags.startCode|
    ensures var rest := s[|tags.startCode|..];
      DropWhite(AfterOpen(tags, InCode, s)) == DropWhite(rest)
      <==> IsWhite(rest[0]) || |rest| == 1 || !IsWhite(rest[1])
  {
    var rest := s[|tags.startCode|..];
    var after := AfterOpen(tags, InCode, s);
    assert after == [rest[0]] + StripEol(rest[1..]);
    assert after[1..] == StripEol(rest[1..]);
    DropAfterStrip(rest[1..]);
    if !IsWhite(rest[0]) {
      assert rest == [rest[0]] + rest[1..];
      StripKeeps(rest[1..]);
    }
  }

  lemma StripKeeps(s: string)
    ensures |StripEol(s)| == |s| <==> StripEol(s) == s
    ensures StripEol(s) == s <==> s == "" || !IsWhite(s[0])
  {
  }
}
