/** Templates written from items: parsing one gives its items back, and parsing any template loses white space only. */
module TemplateTexts {
  import opened Sequences
  import opened Templates
  import opened TokenRecognisers

  function ItemText(tags: Tags, item: Item): string {
    match item
    case Char(c) => [c]
    case Block(mode, body) => StartTag(tags, mode) + body + EndTag(tags, mode)
    case Unclosed(mode, body) => StartTag(tags, mode) + body
  }

  function TemplateText(tags: Tags, items: seq<Item>): string {
    if items == [] then "" else ItemText(tags, items[0]) + TemplateText(tags, items[1..])
  }

  // ---------- What is stripped ----------

  /** Blanks and then one newline, if they come first. */
  function Stripped(items: seq<Item>): (r: seq<Item>)
    ensures |r| <= |items| && r == items[|items| - |r|..]
  {
    if items == [] || !items[0].Char? then items
    else if items[0].c == ' ' || items[0].c == '\t' then Stripped(items[1..])
    else if items[0].c == '\n' then items[1..]
    else items
  }

  /** What follows a block, without what is stripped after it. */
  function Following(items: seq<Item>): (r: seq<Item>)
    requires items != [] && items[0].Block?
    ensures |r| < |items| && r == items[|items| - |r|..]
  {
    if items[0].mode == InExpr then items[1..] else Stripped(items[1..])
  }

  /** The body of a block as it is after the strip that follows its start tag. */
  function Opened(tags: Tags, mode: Mode, body: string): string {
    if mode != InCode || body == "" then body
    else if Partial(StartTokens(tags), tags.startCode) then [body[0]] + StripEol(body[1..])
    else StripEol(body)
  }

  /** What the items come to: code bodies, and what follows code and comments, stripped. */
  function Back(tags: Tags, items: seq<Item>): seq<Item>
    decreases |items|
  {
    if items == [] then []
    else if items[0].Block? then
      [Block(items[0].mode, Opened(tags, items[0].mode, items[0].body))] + Back(tags, Following(items))
    else [items[0]] + Back(tags, items[1..])
  }

  // ---------- Templates that can be read ----------

  predicate NoWhite(s: string) {
    forall c <- s :: !IsWhite(c)
  }

  /** Start tags that differ, and no white space in any tag. */
  predicate Distinct(tags: Tags) {
    && tags.startCode != tags.startExpr && tags.startCode != tags.startComment && tags.startExpr != tags.startComment
    && forall m: Mode :: NoWhite(StartTag(tags, m)) && NoWhite(EndTag(tags, m))
  }

  /** No end tag begins within the body. */
  predicate EndsAtEnd(body: string, end: string) {
    forall i | 0 <= i < |body| :: !(end <= (body + end)[i..])
  }

  function ModeOf(item: Item): Mode {
    if item.Char? then InText else item.mode
  }

  /** The text from this item on begins with no longer start tag than the item's own, whole or unfinished: with none at
      all if it is a character.  A block has both tags, and no end tag begins within its body. */
  predicate Fits(tags: Tags, item: Item, s: string) {
    && (forall t <- StartTokens(tags) :: !(s < t) && (t <= s ==> |t| <= |StartTag(tags, ModeOf(item))|))
    && match item
       case Char(_) => true
       case Block(mode, body) =>
         && StartTag(tags, mode) != "" && EndTag(tags, mode) != ""
         && (mode == InCode && body == "" && Partial(StartTokens(tags), tags.startCode) ==> |tags.endCode| > 1)
         && EndsAtEnd(Opened(tags, mode, body), EndTag(tags, mode))
       case Unclosed(_, _) => false
  }

  predicate Clean(tags: Tags, items: seq<Item>) {
    forall i | 0 <= i < |items| :: Fits(tags, items[i], TemplateText(tags, items[i..]))
  }

  lemma CleanSuffix(tags: Tags, items: seq<Item>, n: nat)
    requires Clean(tags, items) && n <= |items|
    ensures Clean(tags, items[n..])
  {
    forall i | 0 <= i < |items[n..]| ensures Fits(tags, items[n..][i], TemplateText(tags, items[n..][i..])) {
      assert items[n..][i..] == items[n + i..];
    }
  }

  lemma StripFirst(c: char, rest: string)
    ensures StripEol([c] + rest) == if c == ' ' || c == '\t' then StripEol(rest) else if c == '\n' then rest else [c] + rest
  {
    assert ([c] + rest)[0] == c && ([c] + rest)[1..] == rest;
  }

  lemma StripTag(tag: string, rest: string)
    requires tag != "" && NoWhite(tag)
    ensures StripEol(tag + rest) == tag + rest
  {
    assert (tag + rest)[0] == tag[0] && tag[0] in tag;
  }

  lemma TextOfBlock(tags: Tags, items: seq<Item>)
    requires items != [] && items[0].Block?
    ensures var mode := items[0].mode;
            TemplateText(tags, items) ==
            StartTag(tags, mode) + (items[0].body + EndTag(tags, mode) + TemplateText(tags, items[1..]))
  {
    var mode, body, later := items[0].mode, items[0].body, TemplateText(tags, items[1..]);
    Assoc(StartTag(tags, mode), body, EndTag(tags, mode));
    Assoc(StartTag(tags, mode), body + EndTag(tags, mode), later);
  }

  /** The items are characters and blocks whose start tags begin with no white space. */
  predicate Tagged(tags: Tags, items: seq<Item>) {
    forall item <- items :: item.Char? || (item.Block? && StartTag(tags, item.mode) != "" && NoWhite(StartTag(tags, item.mode)))
  }

  lemma {:induction false} StripWritten(tags: Tags, items: seq<Item>)
    requires Tagged(tags, items)
    ensures StripEol(TemplateText(tags, items)) == TemplateText(tags, Stripped(items))
  {
    if items != [] {
      var rest := TemplateText(tags, items[1..]);
      if items[0].Char? {
        StripFirst(items[0].c, rest);
        StripWritten(tags, items[1..]);
      } else {
        var mode := items[0].mode;
        TextOfBlock(tags, items);
        StripTag(StartTag(tags, mode), items[0].body + EndTag(tags, mode) + rest);
      }
    }
  }

  lemma CleanIsTagged(tags: Tags, items: seq<Item>)
    requires Distinct(tags) && Clean(tags, items)
    ensures Tagged(tags, items)
  {
    forall item <- items ensures item.Char? || (item.Block? && StartTag(tags, item.mode) != "" && NoWhite(StartTag(tags, item.mode))) {
      var i :| 0 <= i < |items| && items[i] == item;
      assert Fits(tags, items[i], TemplateText(tags, items[i..]));
    }
  }

  lemma FirstFits(tags: Tags, items: seq<Item>)
    requires Clean(tags, items) && items != []
    ensures Fits(tags, items[0], TemplateText(tags, items))
  {
    assert items[0..] == items;
    assert Fits(tags, items[0], TemplateText(tags, items[0..]));
  }

  lemma StripBody(body: string, end: string, later: string)
    requires end != "" && NoWhite(end)
    ensures StripEol(body + end + later) == StripEol(body) + end + later
  {
    if body == "" {
      assert (body + end + later)[0] == end[0] && end[0] in end && body + end + later == end + later;
    } else {
      assert (body + end + later)[0] == body[0] && (body + end + later)[1..] == body[1..] + end + later;
      if body[0] == ' ' || body[0] == '\t' {
        StripBody(body[1..], end, later);
      }
    }
  }

  /** Where a block opens: its stripped body, its end tag and what follows. */
  lemma OpensBody(tags: Tags, mode: Mode, body: string, later: string)
    requires Distinct(tags) && mode != InText && EndTag(tags, mode) != ""
    requires mode == InCode && body == "" && Partial(StartTokens(tags), tags.startCode) ==> |tags.endCode| > 1
    ensures var start, end := StartTag(tags, mode), EndTag(tags, mode);
            AfterOpen(tags, mode, start + (body + end + later)) == Opened(tags, mode, body) + end + later
  {
    var start, end := StartTag(tags, mode), EndTag(tags, mode);
    DropLeft(start, body + end + later);
    if mode == InCode {
      if Partial(StartTokens(tags), tags.startCode) {
        StripLate(body, end, later);
      } else {
        StripBody(body, end, later);
      }
    }
  }

  /** The first character escapes the strip. */
  lemma StripLate(body: string, end: string, later: string)
    requires end != "" && NoWhite(end) && (body == "" ==> |end| > 1)
    ensures var rest := body + end + later;
            [rest[0]] + StripEol(rest[1..]) == (if body == "" then "" else [body[0]] + StripEol(body[1..])) + end + later
  {
    var rest := body + end + later;
    if body == "" {
      assert rest == end + later && rest[1..] == end[1..] + later;
      assert end[1] in end && rest[1..][0] == end[1];
      assert [rest[0]] + rest[1..] == rest;
    } else {
      assert rest[1..] == body[1..] + end + later && rest[0] == body[0];
      StripBody(body[1..], end, later);
      Assoc([body[0]], StripEol(body[1..]), end);
      Assoc([body[0]], StripEol(body[1..]) + end, later);
    }
  }

  lemma BeginsWithin(end: string, s: string, later: string)
    requires |end| <= |s|
    ensures end <= s + later <==> end <= s
  {
    assert (s + later)[..|end|] == s[..|end|];
  }

  lemma {:induction false} BodyFound(body: string, end: string, later: string)
    requires end != "" && EndsAtEnd(body, end)
    ensures Body(end, body + end + later) == body && Rest(end, body + end + later) == Tail(later)
  {
    var s := body + end + later;
    if body == "" {
      assert s == end + later;
      DropLeft(end, later);
    } else {
      assert (body + end)[0..] == body + end;
      BeginsWithin(end, body + end, later);
      assert s[0] == body[0] && s[1..] == body[1..] + end + later;
      assert EndsAtEnd(body[1..], end) by {
        forall i | 0 <= i < |body[1..]| ensures !(end <= (body[1..] + end)[i..]) {
          assert (body[1..] + end)[i..] == (body + end)[i + 1..];
        }
      }
      BodyFound(body[1..], end, later);
    }
  }

  lemma SamePrefix(a: string, b: string, s: string)
    requires a <= s && b <= s && |a| == |b|
    ensures a == b
  {
    assert a == s[..|a|] && b == s[..|b|];
  }

  /** Only the item's own tag opens. */
  lemma WinsOwn(tags: Tags, item: Item, s: string, m: Mode)
    requires Distinct(tags) && Fits(tags, item, s) && StartTag(tags, ModeOf(item)) <= s && Wins(tags, m, s)
    ensures m == ModeOf(item)
  {
    StartTokensAre(tags);
    var t, start := StartTag(tags, m), StartTag(tags, ModeOf(item));
    assert t in StartTokens(tags) && |t| <= |start|;
    assert start in StartTokens(tags) && |start| <= |t|;
    SamePrefix(t, start, s);
  }

  /** The block's own tag is the one that opens. */
  lemma OpensOwn(tags: Tags, item: Item, s: string)
    requires Distinct(tags) && Fits(tags, item, s) && StartTag(tags, ModeOf(item)) <= s
    ensures !Partial(StartTokens(tags), s) && Opening(tags, s) == ModeOf(item)
  {
    var mode := Opening(tags, s);
    if mode != InText {
      WinsOwn(tags, item, s, mode);
    } else if ModeOf(item) != InText {
      StartTokensAre(tags);
      assert Wins(tags, ModeOf(item), s);
    }
  }

  /** A template written from items is parsed into these items, stripped. */
  lemma {:induction false} ParsedIsBack(tags: Tags, items: seq<Item>)
    requires Distinct(tags) && Clean(tags, items)
    ensures Parse(tags, TemplateText(tags, items)) == Back(tags, items)
    decreases |items|
  {
    if items != [] {
      FirstFits(tags, items);
      if items[0].Char? {
        CharParsed(tags, items);
        CleanSuffix(tags, items, 1);
        ParsedIsBack(tags, items[1..]);
      } else {
        BlockParsed(tags, items);
        var rest := Following(items);
        CleanSuffix(tags, items, |items| - |rest|);
        ParsedIsBack(tags, rest);
      }
    }
  }

  lemma CharParsed(tags: Tags, items: seq<Item>)
    requires Distinct(tags) && Clean(tags, items) && items != [] && items[0].Char?
    ensures Parse(tags, TemplateText(tags, items)) == [items[0]] + Parse(tags, TemplateText(tags, items[1..]))
  {
    var s, later := TemplateText(tags, items), TemplateText(tags, items[1..]);
    FirstFits(tags, items);
    OpensOwn(tags, items[0], s);
    assert s[0] == items[0].c && s[1..] == later;
  }

  lemma BlockParsed(tags: Tags, items: seq<Item>)
    requires Distinct(tags) && Clean(tags, items) && items != [] && items[0].Block?
    ensures var mode := items[0].mode;
            Parse(tags, TemplateText(tags, items)) ==
            [Block(mode, Opened(tags, mode, items[0].body))] + Parse(tags, TemplateText(tags, Following(items)))
  {
    var mode, later := items[0].mode, TemplateText(tags, items[1..]);
    FirstFits(tags, items);
    TextOfBlock(tags, items);
    BlockOpens(tags, items[0], TemplateText(tags, items), later);
    BlockIs(tags, TemplateText(tags, items), mode, Opened(tags, mode, items[0].body), later);
    FollowingText(tags, items);
  }

  lemma FollowingText(tags: Tags, items: seq<Item>)
    requires Distinct(tags) && Clean(tags, items) && items != [] && items[0].Block?
    ensures AfterClose(items[0].mode, TemplateText(tags, items[1..])) == TemplateText(tags, Following(items))
  {
    if items[0].mode != InExpr {
      CleanSuffix(tags, items, 1);
      CleanIsTagged(tags, items[1..]);
      StripWritten(tags, items[1..]);
    }
  }

  lemma BlockOpens(tags: Tags, item: Item, s: string, later: string)
    requires Distinct(tags) && item.Block? && Fits(tags, item, s)
    requires s == StartTag(tags, item.mode) + (item.body + EndTag(tags, item.mode) + later)
    ensures s != "" && !Partial(StartTokens(tags), s) && Opening(tags, s) == item.mode != InText
    ensures var inner, end := AfterOpen(tags, item.mode, s), EndTag(tags, item.mode);
            Body(end, inner) == Opened(tags, item.mode, item.body) && Rest(end, inner) == Tail(later)
  {
    OpensOwn(tags, item, s);
    OpensBody(tags, item.mode, item.body, later);
    BodyFound(Opened(tags, item.mode, item.body), EndTag(tags, item.mode), later);
  }

  lemma BlockIs(tags: Tags, s: string, mode: Mode, body: string, later: string)
    requires s != "" && !Partial(StartTokens(tags), s) && Opening(tags, s) == mode != InText
    requires var inner := AfterOpen(tags, mode, s);
             Body(EndTag(tags, mode), inner) == body && Rest(EndTag(tags, mode), inner) == Tail(later)
    ensures Parse(tags, s) == [Block(mode, body)] + Parse(tags, AfterClose(mode, later))
  {
  }

  /** Nothing to strip: no code body, and nothing after code or a comment, begins with white space. */
  predicate Crisp(tags: Tags, items: seq<Item>) {
    && (forall item <- items | item.Block? :: Opened(tags, item.mode, item.body) == item.body)
    && forall i | 0 <= i < |items| - 1 && items[i].Block? && items[i].mode != InExpr :: items[i + 1].Char? ==> !IsWhite(items[i + 1].c)
  }

  lemma {:induction false} CrispIsBack(tags: Tags, items: seq<Item>)
    requires Crisp(tags, items)
    ensures Back(tags, items) == items
  {
    if items != [] {
      CrispRest(tags, items);
      CrispIsBack(tags, items[1..]);
      if items[0].Block? {
        assert items[0] in items;
        NothingStripped(items);
      }
    }
  }

  lemma CrispRest(tags: Tags, items: seq<Item>)
    requires Crisp(tags, items) && items != []
    ensures Crisp(tags, items[1..])
  {
    var rest := items[1..];
    forall i | 0 <= i < |rest| - 1 && rest[i].Block? && rest[i].mode != InExpr
      ensures rest[i + 1].Char? ==> !IsWhite(rest[i + 1].c)
    {
      assert rest[i] == items[i + 1] && rest[i + 1] == items[i + 2];
    }
  }

  lemma NothingStripped(items: seq<Item>)
    requires items != [] && items[0].Block?
    requires items[0].mode != InExpr && |items| > 1 && items[1].Char? ==> !IsWhite(items[1].c)
    ensures Following(items) == items[1..]
  {
  }

  /** The round trip: items that leave nothing to strip come back as they are. */
  lemma ParsedBack(tags: Tags, items: seq<Item>)
    requires Distinct(tags) && Clean(tags, items) && Crisp(tags, items)
    ensures Parse(tags, TemplateText(tags, items)) == items
  {
    ParsedIsBack(tags, items);
    CrispIsBack(tags, items);
  }

  // ---------- What parsing any template loses ----------

  /** Without its white space. */
  function Squeezed(s: string): string {
    if s == "" then "" else (if IsWhite(s[0]) then "" else [s[0]]) + Squeezed(s[1..])
  }

  lemma {:induction false} SqueezedConcat(a: string, b: string)
    ensures Squeezed(a + b) == Squeezed(a) + Squeezed(b)
  {
    if a == "" {
      EmptyLeft(b);
    } else {
      assert (a + b)[1..] == a[1..] + b;
      SqueezedConcat(a[1..], b);
    }
  }

  lemma {:induction false} SqueezedStrip(s: string)
    ensures Squeezed(StripEol(s)) == Squeezed(s)
  {
    if s != "" && IsWhite(s[0]) {
      EmptyLeft(Squeezed(s[1..]));
      assert Squeezed(s) == Squeezed(s[1..]);
      if s[0] != '\n' {
        SqueezedStrip(s[1..]);
      }
    }
  }

  /** An unfinished tag at the end of the input. */
  predicate Unfinished(tags: Tags, lost: string) {
    lost == "" || Partial(StartTokens(tags), lost) || exists m: Mode :: lost < EndTag(tags, m)
  }

  lemma OpenKeeps(tags: Tags, mode: Mode, s: string)
    requires StartTag(tags, mode) <= s
    ensures Squeezed(s) == Squeezed(StartTag(tags, mode)) + Squeezed(AfterOpen(tags, mode, s))
  {
    var start := StartTag(tags, mode);
    var rest := s[|start|..];
    assert s == start + rest;
    SqueezedConcat(start, rest);
    if mode == InCode && rest != "" {
      SqueezedStrip(rest);
      SqueezedStrip(rest[1..]);
      assert rest == [rest[0]] + rest[1..];
      SqueezedConcat([rest[0]], rest[1..]);
      SqueezedConcat([rest[0]], StripEol(rest[1..]));
    }
  }

  lemma {:induction false} BodyLoses(end: string, s: string) returns (lost: string)
    requires Rest(end, s).NoTail?
    ensures s == Body(end, s) + lost && (lost == "" || lost < end)
  {
    if s < end || s == "" {
      lost := s;
    } else {
      lost := BodyLoses(end, s[1..]);
      Assoc([s[0]], Body(end, s[1..]), lost);
      assert s == [s[0]] + s[1..];
    }
  }

  /** Whatever the template and the tags: the items say all of it, in order, but for white space and an unfinished tag
      at its end. */
  lemma {:induction false} OnlyWhiteIsLost(tags: Tags, s: string) returns (lost: string)
    ensures Unfinished(tags, lost) && Squeezed(s) == Squeezed(TemplateText(tags, Parse(tags, s)) + lost)
    decreases |s|
  {
    var items := Parse(tags, s);
    if s == "" || Partial(StartTokens(tags), s) {
      lost := s;
      EmptyLeft(s);
    } else {
      var mode := Opening(tags, s);
      if mode == InText {
        lost := OnlyWhiteIsLost(tags, s[1..]);
        LosesMore(tags, items, [s[0]], lost, s[1..]);
        assert s == [s[0]] + s[1..];
      } else {
        lost := BlockLoses(tags, mode, s);
      }
    }
  }

  lemma LosesMore(tags: Tags, items: seq<Item>, text: string, lost: string, rest: string)
    requires items != [] && Squeezed(text) == Squeezed(ItemText(tags, items[0]))
    requires Squeezed(rest) == Squeezed(TemplateText(tags, items[1..]) + lost)
    ensures Squeezed(text + rest) == Squeezed(TemplateText(tags, items) + lost)
  {
    var first, later := ItemText(tags, items[0]), TemplateText(tags, items[1..]);
    Assoc(first, later, lost);
    SqueezedConcat(first, later + lost);
    SqueezedConcat(text, rest);
  }

  lemma {:induction false} BlockLoses(tags: Tags, mode: Mode, s: string) returns (lost: string)
    requires s != "" && !Partial(StartTokens(tags), s) && mode == Opening(tags, s) && mode != InText
    ensures Unfinished(tags, lost) && Squeezed(s) == Squeezed(TemplateText(tags, Parse(tags, s)) + lost)
    decreases |s|, 0
  {
    var end, inner := EndTag(tags, mode), AfterOpen(tags, mode, s);
    match Rest(end, inner) {
      case NoTail =>
        lost := UnclosedLoses(tags, mode, s);
      case Tail(text) =>
        BlockIs(tags, s, mode, Body(end, inner), text);
        lost := OnlyWhiteIsLost(tags, AfterClose(mode, text));
        ClosedLoses(tags, mode, s, text, lost);
    }
  }

  lemma UnclosedLoses(tags: Tags, mode: Mode, s: string) returns (lost: string)
    requires s != "" && !Partial(StartTokens(tags), s) && mode == Opening(tags, s) && mode != InText
    requires Rest(EndTag(tags, mode), AfterOpen(tags, mode, s)).NoTail?
    ensures Unfinished(tags, lost) && Squeezed(s) == Squeezed(TemplateText(tags, Parse(tags, s)) + lost)
  {
    var start, end, inner := StartTag(tags, mode), EndTag(tags, mode), AfterOpen(tags, mode, s);
    var body := Body(end, inner);
    OpenKeeps(tags, mode, s);
    lost := BodyLoses(end, inner);
    UnclosedIs(tags, s, mode);
    SqueezedConcat(start, inner);
    Assoc(start, body, lost);
    assert start + body + lost == start + inner;
  }

  lemma UnclosedIs(tags: Tags, s: string, mode: Mode)
    requires s != "" && !Partial(StartTokens(tags), s) && mode == Opening(tags, s) && mode != InText
    requires Rest(EndTag(tags, mode), AfterOpen(tags, mode, s)).NoTail?
    ensures TemplateText(tags, Parse(tags, s)) == StartTag(tags, mode) + Body(EndTag(tags, mode), AfterOpen(tags, mode, s))
  {
    var items := [Unclosed(mode, Body(EndTag(tags, mode), AfterOpen(tags, mode, s)))];
    assert Parse(tags, s) == items;
    assert items[1..] == [] && TemplateText(tags, []) == "";
  }

  lemma ClosedLoses(tags: Tags, mode: Mode, s: string, text: string, lost: string)
    requires s != "" && !Partial(StartTokens(tags), s) && mode == Opening(tags, s) && mode != InText
    requires Rest(EndTag(tags, mode), AfterOpen(tags, mode, s)) == Tail(text)
    requires var next := AfterClose(mode, text);
             Squeezed(next) == Squeezed(TemplateText(tags, Parse(tags, next)) + lost)
    ensures Squeezed(s) == Squeezed(TemplateText(tags, Parse(tags, s)) + lost)
  {
    var start, end, inner := StartTag(tags, mode), EndTag(tags, mode), AfterOpen(tags, mode, s);
    var body, next := Body(end, inner), AfterClose(mode, text);
    OpenKeeps(tags, mode, s);
    RestIsFirst(end, inner);
    SqueezedStrip(text);
    SqueezedBlock(start, body + end, text, next);
    BlockIs(tags, s, mode, body, text);
    var items := [Block(mode, body)] + Parse(tags, next);
    assert items[1..] == Parse(tags, next);
    Assoc(start, body, end);
    LosesMore(tags, items, start + (body + end), lost, next);
  }

  lemma SqueezedBlock(start: string, inside: string, text: string, next: string)
    requires Squeezed(next) == Squeezed(text)
    ensures Squeezed(start) + Squeezed(inside + text) == Squeezed(start + inside + next)
  {
    Assoc(start, inside, text);
    SqueezedConcat(start, inside + text);
    SqueezedConcat(start + inside, text);
    SqueezedConcat(start + inside, next);
  }
}
