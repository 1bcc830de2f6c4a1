/** The template processor (libs/cppt/processor.cc): a four-state machine that reads one character at a time.

    Each state has a token recogniser of its own, which holds characters back while they may still become a
    tag.  A character that is not used may have to be tried again, in another state.

    `Remaining` is what is still to be written: with what has been written it stays the same, whatever the
    character, and is in the end exactly what the parser of `Templates` calls for. */
module Processors {
  import opened Sequences
  import opened TokenRecognisers
  import opened Templates

  /** Everything that is in `w` and still to be written, when the machine is in the given state with
      this input left. */
  ghost function Remaining(name: string, tags: Tags, mode: Mode, w: Written, s: string): string {
    var end := EndTag(tags, mode);
    match mode
    case InText => Emit(name, w, Parse(tags, s))
    case InCode =>
      (match Rest(end, s)
       case NoTail => w.text + Body(end, s)
       case Tail(t) => Emit(name, Written(w.text + Body(end, s), false), Parse(tags, StripEol(t))))
    case InExpr =>
      (match Rest(end, s)
       case NoTail => w.text + Body(end, s)
       case Tail(t) => Emit(name, Written(w.text + Body(end, s) + ") << \"", true), Parse(tags, t)))
    case InComment =>
      (match Rest(end, s)
       case NoTail => w.text
       case Tail(t) => Emit(name, w, Parse(tags, StripEol(t))))
  }

  function UpToNul(s: string): string {
    if s == "" || s[0] == '\0' then "" else [s[0]] + UpToNul(s[1..])
  }

  function EndTokens(tags: Tags, mode: Mode): seq<string> {
    if EndTag(tags, mode) == "" then [] else [EndTag(tags, mode)]
  }

  ghost function Stem(tags: Tags, stem: string, mode: Mode): string {
    if mode == InText then stem
    else if EndTag(tags, mode) == "" then ""
    else EndTag(tags, mode)[..|EndTag(tags, mode)| - 1]
  }

  function StateTokens(tags: Tags, mode: Mode): seq<string> {
    if mode == InText then StartTokens(tags) else EndTokens(tags, mode)
  }

  /** What the tags must satisfy: the start tags share one stem, and no tag overlaps itself in a way
      the recognisers lose. */
  ghost predicate TagsOk(tags: Tags, stem: string) {
    && Family(StartTokens(tags), stem) && AllShiftSafe(StartTokens(tags))
    && (StartTokens(tags) == [] ==> stem == "")
    && ShiftSafe(tags.endCode) && ShiftSafe(tags.endExpr) && ShiftSafe(tags.endComment)
  }

  lemma ShortIsShiftSafe(token: string)
    requires |token| <= 3 && (|token| == 3 ==> token[0] != token[1])
    ensures ShiftSafe(token)
  {
    forall j, k | 0 < j < k < |token| ensures !BadShift(token, j, k) {
      assert token[j..k][0] == token[1] && token[..k - j][0] == token[0];
    }
  }

  /** The usual tags. */
  lemma UsualTagsOk()
    ensures TagsOk(Tags("<?", "?>", "<?=", "?>", "<?#", "?>"), "<?")
  {
    TokensOfThree("<?", "<?=", "<?#");
    var tokens := ["<?", "<?=", "<?#"];
    assert StartTokens(Tags("<?", "?>", "<?=", "?>", "<?#", "?>")) == tokens;
    ShortIsShiftSafe("?>");
    forall t <- tokens ensures ShiftSafe(t) {
      ShortIsShiftSafe(t);
    }
  }

  lemma StateFamily(tags: Tags, stem: string, mode: Mode)
    requires TagsOk(tags, stem)
    ensures Family(StateTokens(tags, mode), Stem(tags, stem, mode)) && AllShiftSafe(StateTokens(tags, mode))
    ensures StateTokens(tags, mode) == [] ==> Stem(tags, stem, mode) == ""
    ensures mode != InText ==> Stem(tags, stem, mode) !in StateTokens(tags, mode)
  {
  }

  /** What one call of a recogniser comes to when it holds `k` characters of the stem. */
  ghost predicate Fed(tokens: seq<string>, stem: string, k: nat, c: char, o: Outcome)
    requires k <= |stem|
  {
    var held, token := Pending(o.matcher), o.matcher.current;
    && (Advances(stem, k, c) ==> o.used && o.state == Reading && held == stem[..k] + [c])
    && (Finishes(tokens, stem, k, c) ==> o.used && o.state == Valid && o.matcher.index == 0 && token == stem + [c])
    && (Refuses(tokens, stem, k, c) ==>
          && !o.used && o.matcher.index == 0 && (k > 0 ==> token == stem[..k])
          && o.state == if k == 0 then Reading else if HoldsToken(tokens, stem, k) then Valid else Invalid)
    && (o.state == Valid ==> stem[..k] == stem && token in tokens && if o.used then token == stem + [c] else token == stem && stem + [c] !in tokens)
  }

  lemma FedOnce(tags: Tags, stem: string, mode: Mode, m: Matcher, c: char)
    requires TagsOk(tags, stem) && OnStem(m, StateTokens(tags, mode), Stem(tags, stem, mode))
    ensures var tokens, st := StateTokens(tags, mode), Stem(tags, stem, mode); var o := Recognise(tokens, m, c);
            OnStem(o.matcher, tokens, st) && Pending(m) == st[..m.index] && Fed(tokens, st, m.index, c, o)
  {
    var tokens, st := StateTokens(tags, mode), Stem(tags, stem, mode);
    StateFamily(tags, stem, mode);
    RecogniseFamily(tokens, st, m, c);
    assert st[..|st|] == st;
  }

  function WriteText(name: string, w: Written, text: string): Written {
    if text == "" then w else WriteChar(name, WriteText(name, w, text[..|text| - 1]), text[|text| - 1])
  }

  lemma WriteOne(name: string, w: Written, c: char)
    ensures WriteText(name, w, [c]) == WriteChar(name, w, c)
  {
    assert [c][..0] == "";
    assert WriteText(name, w, [c][..0]) == w;
  }

  /** Input with no tag at its first positions is text up to there. */
  lemma {:induction false} SkipText(name: string, w: Written, tags: Tags, text: string, s: string)
    requires text <= s
    requires forall i | 0 <= i < |text| :: !Partial(StartTokens(tags), s[i..]) && Opening(tags, s[i..]) == InText
    ensures Emit(name, w, Parse(tags, s)) == Emit(name, WriteText(name, w, text), Parse(tags, s[|text|..]))
  {
    if text == "" {
      assert s[0..] == s;
    } else {
      var front := text[..|text| - 1];
      SkipText(name, w, tags, front, s);
      var after := s[|front|..];
      PeelText(name, WriteText(name, w, front), tags, after);
      assert after[0] == text[|front|] && after[1..] == s[|text|..];
    }
  }

  /** In the text state, refused input is text: all of what was held, and the refused character is
      looked at again. */
  lemma RefusedText(name: string, w: Written, tags: Tags, stem: string, k: nat, c: char, rest: string)
    requires TagsOk(tags, stem) && Refuses(StartTokens(tags), stem, k, c) && !HoldsToken(StartTokens(tags), stem, k)
    ensures Emit(name, w, Parse(tags, stem[..k] + [c] + rest))
         == Emit(name, WriteText(name, w, stem[..k]), Parse(tags, [c] + rest))
  {
    var s := stem[..k] + [c] + rest;
    forall i | 0 <= i < k ensures !Partial(StartTokens(tags), s[i..]) && Opening(tags, s[i..]) == InText {
      NoTagHere(tags, stem, k, c, rest, i);
    }
    Assoc(stem[..k], [c], rest);
    SkipText(name, w, tags, stem[..k], s);
    assert s[k..] == [c] + rest;
  }

  lemma PeelText(name: string, w: Written, tags: Tags, s: string)
    requires s != "" && !Partial(StartTokens(tags), s) && Opening(tags, s) == InText
    ensures Emit(name, w, Parse(tags, s)) == Emit(name, WriteChar(name, w, s[0]), Parse(tags, s[1..]))
  {
    EmitChar(name, w, s[0], Parse(tags, s[1..]));
  }

  lemma EmitChar(name: string, w: Written, c: char, items: seq<Item>)
    ensures Emit(name, w, [Char(c)] + items) == Emit(name, WriteChar(name, w, c), items)
  {
    assert ([Char(c)] + items)[1..] == items;
  }

  lemma EmitItem(name: string, w: Written, item: Item, items: seq<Item>)
    ensures Emit(name, w, [item] + items) == Emit(name, WriteItem(name, w, item), items)
  {
    assert ([item] + items)[1..] == items;
  }

  lemma NoTagHere(tags: Tags, stem: string, k: nat, c: char, rest: string, j: nat)
    requires TagsOk(tags, stem) && (j < k || j == k == 0)
    requires Refuses(StartTokens(tags), stem, k, c) && !HoldsToken(StartTokens(tags), stem, k)
    ensures var s := (stem[..k] + [c] + rest)[j..];
      !Partial(StartTokens(tags), s) && Opening(tags, s) == InText
  {
    var s := (stem[..k] + [c] + rest)[j..];
    forall t <- StartTokens(tags) ensures !(t <= s) && !(s <= t) {
      RefusedHoldsNoToken(StartTokens(tags), stem, k, c, rest, j, t);
    }
    StartTokensAre(tags);
    assert forall m: Mode :: StartTag(tags, m) != "" ==> StartTag(tags, m) in StartTokens(tags);
    assert !Wins(tags, InCode, s) && !Wins(tags, InExpr, s) && !Wins(tags, InComment, s);
  }

  /** Input with no end tag at its first positions belongs to the body up to there. */
  lemma {:induction false} SkipBody(end: string, text: string, tail: string)
    requires forall i | 0 <= i < |text| :: var s := text[i..] + tail; !(s < end) && !(end != "" && end <= s)
    ensures Body(end, text + tail) == text + Body(end, tail) && Rest(end, text + tail) == Rest(end, tail)
  {
    if text == "" {
      assert text + tail == tail;
    } else {
      var more := text[1..];
      forall i | 0 <= i < |more| ensures var s := more[i..] + tail; !(s < end) && !(end != "" && end <= s) {
        assert more[i..] == text[i + 1..];
      }
      SkipBody(end, more, tail);
      assert text[0..] == text && (text + tail)[1..] == more + tail;
      assert text == [text[0]] + more;
      Assoc([text[0]], more, Body(end, tail));
    }
  }

  /** In a block, refused input belongs to the body. */
  lemma RefusedBody(tags: Tags, stem: string, mode: Mode, k: nat, c: char, rest: string)
    requires TagsOk(tags, stem) && mode != InText && Refuses(EndTokens(tags, mode), Stem(tags, stem, mode), k, c)
    ensures var st, end := Stem(tags, stem, mode)[..k], EndTag(tags, mode);
      && Body(end, st + [c] + rest) == st + Body(end, [c] + rest)
      && Rest(end, st + [c] + rest) == Rest(end, [c] + rest)
  {
    var st, end := Stem(tags, stem, mode), EndTag(tags, mode);
    forall i | 0 <= i < k ensures var s := st[..k][i..] + ([c] + rest); !(s < end) && !(end != "" && end <= s) {
      NoEndHere(tags, stem, mode, k, c, rest, i);
      assert st[..k][i..] == st[i..k];
      Assoc(st[i..k], [c], rest);
    }
    SkipBody(end, st[..k], [c] + rest);
    Assoc(st[..k], [c], rest);
  }

  lemma NoEndHere(tags: Tags, stem: string, mode: Mode, k: nat, c: char, rest: string, j: nat)
    requires TagsOk(tags, stem) && mode != InText && (j < k || j == k == 0)
    requires Refuses(EndTokens(tags, mode), Stem(tags, stem, mode), k, c)
    ensures var st, end := Stem(tags, stem, mode), EndTag(tags, mode);
      var s := st[j..k] + [c] + rest;
      !(s < end) && !(end != "" && end <= s)
  {
    var st, end := Stem(tags, stem, mode), EndTag(tags, mode);
    StateFamily(tags, stem, mode);
    if end != "" {
      RefusedHoldsNoToken(EndTokens(tags, mode), st, k, c, rest, j, end);
      assert (st[..k] + [c] + rest)[j..] == st[j..k] + [c] + rest;
    }
  }

  /** Input that starts with a start tag, and cannot be the start of a longer one, opens its block. */
  lemma TagOpens(tags: Tags, stem: string, mode: Mode, s: string)
    requires TagsOk(tags, stem) && mode != InText
    requires var t := StartTag(tags, mode);
      t != "" && t <= s && (t == stem ==> |s| > |t| && stem + [s[|t|]] !in StartTokens(tags))
    ensures s != "" && !Partial(StartTokens(tags), s) && Opening(tags, s) == mode
    ensures Partial(StartTokens(tags), StartTag(tags, mode)) <==> StartTag(tags, mode) == stem
  {
    var tokens, t := StartTokens(tags), StartTag(tags, mode);
    StartTokensAre(tags);
    assert t in tokens;
    forall u <- tokens ensures (u <= s ==> |u| <= |t|) && !(s < u) && (u <= s && |u| == |t| ==> u == t) {
      if t == stem && |u| == |stem| + 1 {
        assert u == stem + [u[|stem|]];
        assert u[|t|] != s[|t|];
      }
    }
    OneTagPerMode(tags, stem);
    assert Wins(tags, mode, s);
    if t == stem {
      StemExtends(tokens, stem);
    }
  }

  lemma StemExtends(tokens: seq<string>, stem: string)
    requires Family(tokens, stem) && stem in tokens
    ensures Partial(tokens, stem)
  {
    var i :| 0 <= i < |tokens| && tokens[i] == stem;
    var j := if i == 0 then 1 else 0;
    assert tokens[j] in tokens && tokens[j] != stem;
  }

  lemma OneTagPerMode(tags: Tags, stem: string)
    requires TagsOk(tags, stem)
    ensures forall a, b | a != InText && b != InText && a != b && StartTag(tags, a) != "" ::
      StartTag(tags, a) != StartTag(tags, b)
  {
    TokensOfThree(tags.startCode, tags.startExpr, tags.startComment);
    var tokens := StartTokens(tags);
    var c := if tags.startCode == "" then 0 else 1;
    if tags.startCode != "" { assert tokens[0] == tags.startCode; }
    if tags.startExpr != "" { assert tokens[c] == tags.startExpr; }
    if tags.startComment != "" { assert tokens[|tokens| - 1] == tags.startComment; }
  }

  // ---------- What each event of the machine does to the remaining output ----------

  lemma TextStep(name: string, tags: Tags, stem: string, w: Written, c: char, rest: string)
    requires TagsOk(tags, stem) && Refuses(StartTokens(tags), stem, 0, c)
    ensures Remaining(name, tags, InText, w, [c] + rest) == Remaining(name, tags, InText, WriteChar(name, w, c), rest)
  {
    assert stem[..0] + [c] + rest == [c] + rest;
    NoTagHere(tags, stem, 0, c, rest, 0);
    assert ([c] + rest)[0..] == [c] + rest && ([c] + rest)[1..] == rest;
    PeelText(name, w, tags, [c] + rest);
  }

  lemma RefusedStep(name: string, tags: Tags, stem: string, mode: Mode, w: Written, held: string, c: char, rest: string)
    requires TagsOk(tags, stem) && held <= Stem(tags, stem, mode)
    requires Refuses(StateTokens(tags, mode), Stem(tags, stem, mode), |held|, c)
    requires !HoldsToken(StateTokens(tags, mode), Stem(tags, stem, mode), |held|)
    ensures Remaining(name, tags, mode, w, held + [c] + rest)
         == Remaining(name, tags, mode, PassOn(name, mode, w, held), [c] + rest)
  {
    assert Stem(tags, stem, mode)[..|held|] == held;
    if mode == InText {
      RefusedText(name, w, tags, stem, |held|, c, rest);
    } else {
      RefusedBody(tags, stem, mode, |held|, c, rest);
      Assoc(w.text, held, Body(EndTag(tags, mode), [c] + rest));
    }
  }

  /** Characters handed on in each state: as text, verbatim, or not at all. */
  function PassOn(name: string, mode: Mode, w: Written, s: string): Written {
    match mode
    case InText => WriteText(name, w, s)
    case InCode => Written(w.text + s, w.started)
    case InExpr => Written(w.text + s, w.started)
    case InComment => w
  }

  lemma CharStep(name: string, tags: Tags, stem: string, mode: Mode, w: Written, c: char, rest: string)
    requires TagsOk(tags, stem) && Refuses(StateTokens(tags, mode), Stem(tags, stem, mode), 0, c)
    ensures Remaining(name, tags, mode, w, [c] + rest) == Remaining(name, tags, mode, PassOn(name, mode, w, [c]), rest)
  {
    if mode == InText {
      TextStep(name, tags, stem, w, c, rest);
      WriteOne(name, w, c);
    } else {
      BodyStep(name, tags, stem, mode, w, c, rest);
    }
  }

  lemma BodyStep(name: string, tags: Tags, stem: string, mode: Mode, w: Written, c: char, rest: string)
    requires TagsOk(tags, stem) && mode != InText && Refuses(EndTokens(tags, mode), Stem(tags, stem, mode), 0, c)
    ensures Remaining(name, tags, mode, w, [c] + rest) == Remaining(name, tags, mode, PassOn(name, mode, w, [c]), rest)
  {
    var st, end := Stem(tags, stem, mode), EndTag(tags, mode);
    assert st[0..0] + [c] + rest == [c] + rest;
    NoEndHere(tags, stem, mode, 0, c, rest, 0);
    assert ([c] + rest)[1..] == rest;
    Assoc(w.text, [c], Body(end, rest));
  }

  lemma CloseStep(name: string, tags: Tags, mode: Mode, w: Written, rest: string)
    requires mode != InText && EndTag(tags, mode) != ""
    ensures Remaining(name, tags, mode, w, EndTag(tags, mode) + rest)
         == Remaining(name, tags, InText, AfterBlock(mode, w), AfterClose(mode, rest))
  {
    var end := EndTag(tags, mode);
    assert (end + rest)[|end|..] == rest;
    assert w.text + "" == w.text;
  }

  function AfterBlock(mode: Mode, w: Written): Written {
    match mode
    case InText => w
    case InCode => Written(w.text, false)
    case InExpr => Written(w.text + ") << \"", true)
    case InComment => w
  }

  function BeforeBlock(name: string, mode: Mode, w: Written): Written {
    match mode
    case InText => w
    case InCode => Written(WriteClose(w).text, w.started)
    case InExpr => WriteOpenExpr(name, w)
    case InComment => w
  }

  lemma OpenStep(name: string, tags: Tags, stem: string, mode: Mode, w: Written, s: string)
    requires TagsOk(tags, stem) && mode != InText
    requires var t := StartTag(tags, mode);
      t != "" && t <= s && (t == stem ==> |s| > |t| && stem + [s[|t|]] !in StartTokens(tags))
    ensures Remaining(name, tags, InText, w, s)
         == Remaining(name, tags, mode, BeforeBlock(name, mode, w), AfterOpen(tags, mode, s))
  {
    TagOpens(tags, stem, mode, s);
    var end, inner := EndTag(tags, mode), AfterOpen(tags, mode, s);
    var body := Body(end, inner);
    match Rest(end, inner)
    case NoTail =>
      EmitItem(name, w, Unclosed(mode, body), []);
      assert [Unclosed(mode, body)] + [] == [Unclosed(mode, body)];
    case Tail(t) =>
      EmitItem(name, w, Block(mode, body), Parse(tags, AfterClose(mode, t)));
  }

  /** A start tag is recognised with its last character, or, when a longer tag might have come, with
      the character after it. */
  lemma OpenTagStep(name: string, tags: Tags, stem: string, mode: Mode, w: Written, token: string, c: char, used: bool, rest: string)
    requires TagsOk(tags, stem) && mode != InText && token == StartTag(tags, mode) != ""
    requires if used then token != stem else token == stem && stem + [c] !in StartTokens(tags)
    ensures var after := if mode == InCode then StripEol(rest) else rest;
      Remaining(name, tags, InText, w, if used then token + rest else token + [c] + rest)
      == Remaining(name, tags, mode, BeforeBlock(name, mode, w), if used then after else [c] + after)
  {
    var tail := if used then rest else [c] + rest;
    var s := token + tail;
    Assoc(token, [c], rest);
    DropLeft(token, tail);
    DropLeft([c], rest);
    TagOpens(tags, stem, mode, s);
    OpenStep(name, tags, stem, mode, w, s);
    AfterOpenIs(tags, stem, mode, s);
  }

  lemma AfterOpenIs(tags: Tags, stem: string, mode: Mode, s: string)
    requires StartTag(tags, mode) <= s && mode != InText
    requires Partial(StartTokens(tags), StartTag(tags, mode)) <==> StartTag(tags, mode) == stem
    ensures var rest := s[|StartTag(tags, mode)|..];
      AfterOpen(tags, mode, s) == if mode != InCode || rest == "" then rest
                                  else if StartTag(tags, mode) == stem then [rest[0]] + StripEol(rest[1..])
                                  else StripEol(rest)
  {
  }

  /** At the end of input, what is held is lost and the open statement is closed if in text. */
  lemma HeldIsLost(name: string, tags: Tags, stem: string, mode: Mode, w: Written, held: string)
    requires TagsOk(tags, stem) && held <= Stem(tags, stem, mode)
    ensures Remaining(name, tags, mode, w, held) == if mode == InText then WriteClose(w).text else w.text
  {
    if mode == InText {
      if held != "" {
        assert StartTokens(tags)[0] in StartTokens(tags);
        if stem in StartTokens(tags) {
          StemExtends(StartTokens(tags), stem);
        }
        assert Partial(StartTokens(tags), held);
      }
    } else {
      assert held != "" ==> held < EndTag(tags, mode);
      RestNeedsEnd(EndTag(tags, mode), held);
      assert w.text + "" == w.text;
    }
  }

  // ---------- The processor ----------

  method NewRecogniser(tokens: seq<string>) returns (r: TokenRecogniser)
    ensures fresh(r) && r.tokens == Tokens(tokens) && r.Value() == Matcher(0, 0, "")
  {
    r := new TokenRecogniser();
    for i := 0 to |tokens|
      invariant fresh(r) && r.tokens == Tokens(tokens[..i]) && r.Value() == Matcher(0, 0, "")
    {
      assert tokens[..i + 1][..i] == tokens[..i];
      r.AddToken(tokens[i]);
    }
    assert tokens[..|tokens|] == tokens;
  }

  class Processor {
    const tags: Tags
    const sname: string
    const input: string
    var pos: nat
    var out: string
    var mode: Mode
    var started: bool
    const trNormal: TokenRecogniser
    const trCode: TokenRecogniser
    const trExpr: TokenRecogniser
    const trComment: TokenRecogniser

    constructor (input: string, tags: Tags, sname: string)
      ensures this.input == input && this.tags == tags && this.sname == sname && pos == 0 && out == ""
      ensures Wired() && fresh(Recognisers())
      ensures trNormal.Value() == trCode.Value() == trExpr.Value() == trComment.Value() == Matcher(0, 0, "")
    {
      this.input, this.tags, this.sname := input, tags, sname;
      pos, out, mode, started := 0, "", InText, false;
      var normal := NewRecogniser([tags.startCode, tags.startExpr, tags.startComment]);
      var code := NewRecogniser([tags.endCode]);
      var expr := NewRecogniser([tags.endExpr]);
      var comment := NewRecogniser([tags.endComment]);
      trNormal, trCode, trExpr, trComment := normal, code, expr, comment;
    }

    function Matching(m: Mode): TokenRecogniser {
      match m
      case InText => trNormal
      case InCode => trCode
      case InExpr => trExpr
      case InComment => trComment
    }

    function Recognisers(): set<TokenRecogniser> {
      {trNormal, trCode, trExpr, trComment}
    }

    ghost predicate Wired()
      reads Recognisers()
    {
      && trNormal != trCode && trNormal != trExpr && trNormal != trComment
      && trCode != trExpr && trCode != trComment && trExpr != trComment
      && trNormal.tokens == StartTokens(tags)
      && trCode.tokens == EndTokens(tags, InCode)
      && trExpr.tokens == EndTokens(tags, InExpr)
      && trComment.tokens == EndTokens(tags, InComment)
    }

    /** What a recogniser may hold: only that of the current state holds anything. */
    ghost predicate Holds(stem: string, m: Mode)
      reads this`mode, Matching(m)
    {
      && OnStem(Matching(m).Value(), StateTokens(tags, m), Stem(tags, stem, m))
      && (m != mode ==> Matching(m).index == 0)
    }

    ghost predicate Valid(stem: string)
      reads this, Recognisers()
    {
      && Wired() && pos <= |input|
      && Holds(stem, InText) && Holds(stem, InCode) && Holds(stem, InExpr) && Holds(stem, InComment)
      && (mode == InExpr ==> started)
    }

    /** What the current recogniser is holding back. */
    function Held(): string
      reads this`mode, Recognisers()
    {
      Pending(Matching(mode).Value())
    }

    /** What the stream still gives before a zero character. */
    function Ahead(): string
      reads this`pos
    {
      if pos <= |input| then UpToNul(input[pos..]) else ""
    }

    function Now(): Written
      reads this
    {
      Written(out, started)
    }

    /** All output, when `s` is still to come: what is written and what remains. */
    ghost function Total(s: string): string
      reads this, Recognisers()
    {
      Remaining(sname, tags, mode, Now(), Held() + s)
    }

    method OutputChar(c: char)
      modifies this`out, this`started
      ensures Now() == WriteChar(sname, old(Now()), c)
    {
      if !started {
        if c == '\n' {
          out := out + "  " + sname + " << endl;\n";
        } else {
          out := out + "  " + sname + " << \"";
          started := true;
        }
      }
      if started {
        match c
        case '\n' =>
          out := out + "\\n\";" + "\n";
          started := false;
        case '"' =>
          out := out + "\\" + [c];
        case '\\' =>
          out := out + "\\" + [c];
        case _ =>
          out := out + [c];
      }
    }

    method OutputText(s: string)
      modifies this`out, this`started
      ensures Now() == WriteText(sname, old(Now()), s)
    {
      for i := 0 to |s|
        invariant Now() == WriteText(sname, old(Now()), s[..i])
      {
        assert s[..i + 1][..i] == s[..i];
        OutputChar(s[i]);
      }
      assert s[..|s|] == s;
    }

    method OpenCode()
      modifies this`out
      ensures out == WriteClose(old(Now())).text
    {
      if started {
        out := out + "\";" + "\n";
      }
    }

    method OpenExpr()
      modifies this`out, this`started
      ensures Now() == WriteOpenExpr(sname, old(Now()))
    {
      if started {
        out := out + "\" << (";
      } else {
        out := out + ("  " + sname + " << (");
        started := true;
      }
    }

    method CloseCode()
      modifies this`started
      ensures !started
    {
      started := false;
    }

    method CloseExpr()
      requires started
      modifies this`out
      ensures out == old(out) + ") << \""
    {
      out := out + ")";
      if started {
        out := out + " << \"";
      }
      assert ")" + " << \"" == ") << \"";
    }

    method StripLine()
      requires pos <= |input|
      modifies this`pos
      ensures old(pos) <= pos <= |input| && Ahead() == StripEol(old(Ahead()))
    {
      ghost var goal := StripEol(Ahead());
      while pos < |input|
        invariant old(pos) <= pos <= |input| && StripEol(Ahead()) == goal
      {
        var c := input[pos];
        StripAhead();
        if c != ' ' && c != '\t' {
          if c == '\n' {
            pos := pos + 1;
          }
          return;
        }
        pos := pos + 1;
      }
    }

    lemma StripAhead()
      requires pos < |input|
      ensures var c, rest := input[pos], UpToNul(input[pos + 1..]);
              StripEol(Ahead()) == if c == ' ' || c == '\t' then StripEol(rest) else if c == '\n' then rest else Ahead()
    {
      var c, rest := input[pos], UpToNul(input[pos + 1..]);
      FirstAhead();
      if c != '\0' {
        assert ([c] + rest)[0] == c && ([c] + rest)[1..] == rest;
      }
    }

    /** Pass a character to the recogniser of the current state. */
    method Feed(c: char, ghost stem: string) returns (used: bool, state: TokenState, token: string)
      requires TagsOk(tags, stem) && Valid(stem)
      modifies Recognisers()
      ensures Valid(stem) && token == Matching(mode).currentToken
      ensures Fed(StateTokens(tags, mode), Stem(tags, stem, mode), old(Matching(mode).index), c, Outcome(Matching(mode).Value(), state, used))
      ensures old(Held()) == Stem(tags, stem, mode)[..old(Matching(mode).index)]
    {
      var matching := Matching(mode);
      FedOnce(tags, stem, mode, matching.Value(), c);
      used, state := matching.ProcessChar(c);
      token := matching.currentToken;
    }

    /** One pass of the switch over the state; a character that was not used may have to be tried
        again, and then nothing is held any more. */
    method Step(c: char, ghost stem: string, ghost goal: string) returns (retry: bool)
      requires TagsOk(tags, stem) && Valid(stem) && Total([c] + Ahead()) == goal
      modifies this`pos, this`out, this`mode, this`started, Recognisers()
      ensures Valid(stem) && pos >= old(pos)
      ensures Total(if retry then [c] + Ahead() else Ahead()) == goal
      ensures retry ==> Held() == "" != old(Held())
    {
      ghost var k := Matching(mode).index;
      Assoc(Held(), [c], Ahead());
      var used, state, token := Feed(c, stem);
      retry := Handle(used, state, token, c, stem, k, goal);
    }

    method Handle(used: bool, state: TokenState, token: string, c: char, ghost stem: string, ghost k: nat, ghost goal: string)
      returns (retry: bool)
      requires TagsOk(tags, stem) && Valid(stem) && k <= |Stem(tags, stem, mode)| && token == Matching(mode).currentToken
      requires Fed(StateTokens(tags, mode), Stem(tags, stem, mode), k, c, Outcome(Matching(mode).Value(), state, used))
      requires Remaining(sname, tags, mode, Now(), Stem(tags, stem, mode)[..k] + [c] + Ahead()) == goal
      modifies this`pos, this`out, this`mode, this`started
      ensures Valid(stem) && pos >= old(pos)
      ensures Total(if retry then [c] + Ahead() else Ahead()) == goal
      ensures retry ==> Held() == "" && k > 0
    {
      retry := false;
      match state
      case Reading =>
        if !used {
          EmptyLeft([c]);
          EmptyLeft([c] + Ahead());
          PassChar(c, stem, goal);
        }
      case Valid =>
        assert Stem(tags, stem, mode)[..k] + [c] == if used then token else token + [c];
        retry := Recognised(token, c, used, stem, goal);
      case Invalid =>
        PassToken(token, c, stem, goal);
        retry := true;
    }

    /** A tag has been recognised, perhaps one character late. */
    method Recognised(token: string, c: char, used: bool, ghost stem: string, ghost goal: string) returns (retry: bool)
      requires TagsOk(tags, stem) && Valid(stem) && Held() == "" && token in StateTokens(tags, mode)
      requires var st := Stem(tags, stem, mode); if used then token == st + [c] else token == st && st + [c] !in StateTokens(tags, mode)
      requires Remaining(sname, tags, mode, Now(), (if used then token else token + [c]) + Ahead()) == goal
      modifies this`pos, this`out, this`mode, this`started
      ensures Valid(stem) && pos >= old(pos) && Held() == "" && retry == !used
      ensures Total(if retry then [c] + Ahead() else Ahead()) == goal
    {
      retry := !used;
      if mode == InText {
        OpenTag(token, c, used, stem, goal);
      } else {
        StateFamily(tags, stem, mode);
        CloseTag(token, stem, goal);
      }
    }

    method PassChar(c: char, ghost stem: string, ghost goal: string)
      requires TagsOk(tags, stem) && Valid(stem) && Held() == ""
      requires Refuses(StateTokens(tags, mode), Stem(tags, stem, mode), 0, c)
      requires Total([c] + Ahead()) == goal
      modifies this`out, this`started
      ensures Valid(stem) && Held() == "" && Total(Ahead()) == goal
    {
      EmptyLeft(Ahead());
      EmptyLeft([c] + Ahead());
      CharStep(sname, tags, stem, mode, Now(), c, Ahead());
      PassOne(c);
    }

    method PassOne(c: char)
      modifies this`out, this`started
      ensures Now() == PassOn(sname, mode, old(Now()), [c])
    {
      WriteOne(sname, Now(), c);
      if mode == InText {
        OutputChar(c);
      } else if mode != InComment {
        out := out + [c];
      }
    }

    method PassToken(token: string, c: char, ghost stem: string, ghost goal: string)
      requires TagsOk(tags, stem) && Valid(stem) && Held() == ""
      requires token <= Stem(tags, stem, mode) && Refuses(StateTokens(tags, mode), Stem(tags, stem, mode), |token|, c)
      requires !HoldsToken(StateTokens(tags, mode), Stem(tags, stem, mode), |token|)
      requires Remaining(sname, tags, mode, Now(), token + [c] + Ahead()) == goal
      modifies this`out, this`started
      ensures Valid(stem) && Held() == "" && Total([c] + Ahead()) == goal
    {
      RefusedStep(sname, tags, stem, mode, Now(), token, c, Ahead());
      EmptyLeft([c] + Ahead());
      Pass(token);
    }

    method Pass(s: string)
      modifies this`out, this`started
      ensures Now() == PassOn(sname, mode, old(Now()), s)
    {
      if mode == InText {
        OutputText(s);
      } else if mode != InComment {
        out := out + s;
      }
    }

    /** A start tag has been recognised: write what opens its block, and change state. */
    method OpenTag(token: string, c: char, used: bool, ghost stem: string, ghost goal: string)
      requires TagsOk(tags, stem) && Valid(stem) && mode == InText && Held() == "" && token in StartTokens(tags)
      requires if used then token != stem else token == stem && stem + [c] !in StartTokens(tags)
      requires Remaining(sname, tags, InText, Now(), if used then token + Ahead() else token + [c] + Ahead()) == goal
      modifies this`pos, this`out, this`mode, this`started
      ensures Valid(stem) && pos >= old(pos) && Held() == ""
      ensures Total(if used then Ahead() else [c] + Ahead()) == goal
    {
      ghost var w, rest := Now(), Ahead();
      EnterBlock(token);
      OpenTagStep(sname, tags, stem, mode, w, token, c, used, rest);
      EmptyLeft(if used then Ahead() else [c] + Ahead());
    }

    method EnterBlock(token: string)
      requires token in StartTokens(tags) && pos <= |input|
      modifies this`pos, this`out, this`mode, this`started
      ensures mode != InText && token == StartTag(tags, mode) != "" && Now() == BeforeBlock(sname, mode, old(Now()))
      ensures old(pos) <= pos <= |input|
      ensures Ahead() == if mode == InCode then StripEol(old(Ahead())) else old(Ahead())
    {
      StartTokensAre(tags);
      if token == tags.startCode {
        OpenCode();
        mode := InCode;
        StripLine();
      } else if token == tags.startExpr {
        OpenExpr();
        mode := InExpr;
      } else if token == tags.startComment {
        mode := InComment;
      }
    }

    /** An end tag has been recognised. */
    method CloseTag(token: string, ghost stem: string, ghost goal: string)
      requires TagsOk(tags, stem) && Valid(stem) && Held() == "" && mode != InText && token == EndTag(tags, mode) != ""
      requires Remaining(sname, tags, mode, Now(), token + Ahead()) == goal
      modifies this`pos, this`out, this`mode, this`started
      ensures Valid(stem) && pos >= old(pos) && Held() == "" && Total(Ahead()) == goal
    {
      CloseStep(sname, tags, mode, Now(), Ahead());
      LeaveBlock();
      EmptyLeft(Ahead());
    }

    method LeaveBlock()
      requires pos <= |input| && mode != InText && (mode == InExpr ==> started)
      modifies this`pos, this`out, this`mode, this`started
      ensures mode == InText && Now() == AfterBlock(old(mode), old(Now()))
      ensures old(pos) <= pos <= |input| && Ahead() == AfterClose(old(mode), old(Ahead()))
    {
      if mode == InCode {
        CloseCode();
        StripLine();
      } else if mode == InExpr {
        CloseExpr();
      } else {
        StripLine();
      }
      mode := InText;
    }

    /** Process the whole input.  The stream gives a zero character at its end; one before that ends the template too. */
    method Process(ghost stem: string)
      requires TagsOk(tags, stem) && Wired() && pos == 0 && out == ""
      requires trNormal.Value() == trCode.Value() == trExpr.Value() == trComment.Value() == Matcher(0, 0, "")
      modifies this`pos, this`out, this`mode, this`started, Recognisers()
      ensures out == Emit(sname, Written("", false), Parse(tags, UpToNul(input)))
    {
      ghost var goal := Emit(sname, Written("", false), Parse(tags, UpToNul(input)));
      Start(stem, goal);
      while pos < |input| && input[pos] != '\0'
        invariant Valid(stem) && Total(Ahead()) == goal
        decreases |input| - pos
      {
        NextChar(stem, goal);
      }
      Finish(stem, goal);
    }

    method Start(ghost stem: string, ghost goal: string)
      requires TagsOk(tags, stem) && Wired() && pos == 0 && out == ""
      requires trNormal.Value() == trCode.Value() == trExpr.Value() == trComment.Value() == Matcher(0, 0, "")
      requires goal == Remaining(sname, tags, InText, Written("", false), UpToNul(input))
      modifies this`mode, this`started
      ensures Valid(stem) && Total(Ahead()) == goal
    {
      mode, started := InText, false;
      EmptyLeft(UpToNul(input));
      assert input[0..] == input;
    }

    lemma FirstAhead()
      requires pos < |input|
      ensures Ahead() == if input[pos] == '\0' then "" else [input[pos]] + UpToNul(input[pos + 1..])
    {
      assert input[pos..][1..] == input[pos + 1..];
    }

    method NextChar(ghost stem: string, ghost goal: string)
      requires TagsOk(tags, stem) && Valid(stem) && pos < |input| && input[pos] != '\0' && Total(Ahead()) == goal
      modifies this`pos, this`out, this`mode, this`started, Recognisers()
      ensures Valid(stem) && pos > old(pos) && Total(Ahead()) == goal
    {
      var c := input[pos];
      FirstAhead();
      pos := pos + 1;
      ProcessChar(c, stem, goal);
    }

    /** Try a character until it is used: at most twice, because after a refusal nothing is held. */
    method ProcessChar(c: char, ghost stem: string, ghost goal: string)
      requires TagsOk(tags, stem) && Valid(stem) && Total([c] + Ahead()) == goal
      modifies this`pos, this`out, this`mode, this`started, Recognisers()
      ensures Valid(stem) && pos >= old(pos) && Total(Ahead()) == goal
    {
      var retry := true;
      while retry
        invariant Valid(stem) && pos >= old(pos)
        invariant Total(if retry then [c] + Ahead() else Ahead()) == goal
        decreases retry, |Held()|
      {
        retry := Step(c, stem, goal);
      }
    }

    method Finish(ghost stem: string, ghost goal: string)
      requires TagsOk(tags, stem) && Valid(stem) && Ahead() == "" && Total(Ahead()) == goal
      modifies this`out
      ensures out == goal
    {
      assert Held() + "" == Held();
      HeldIsLost(sname, tags, stem, mode, Now(), Held());
      if mode == InText {
        OpenCode();
      }
    }
  }

  /** What `Process` writes for a complete template is a printed program whose statements are all
      closed and whose string literals decode, and running it does what the template says. */
  lemma EmittedProgramMeansTemplate(name: string, tags: Tags, input: string)
    requires Complete(Parse(tags, input))
    ensures var items := Parse(tags, input); var program := Compile(Draft([], []), items);
      && Emit(name, Written("", false), items) == PrintProgram(name, program)
      && WellFormed(program) && Run(program) == Meaning(items)
  {
    var d := Draft([], []);
    EmitPrintsProgram(name, Written("", false), d, Parse(tags, input));
    CompiledMeaning(d, Parse(tags, input));
    EmptyLeft(Meaning(Parse(tags, input)));
  }
}
