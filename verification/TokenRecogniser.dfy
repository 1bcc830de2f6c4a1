/** The streaming token recogniser (libs/cppt/tokenr.cc), and what it does on tokens that share a stem. */
module TokenRecognisers {

  datatype TokenState = Reading | Valid | Invalid

  /** The fields of a recogniser, as a value. */
  datatype Matcher = Matcher(index: nat, longest: nat, current: string)

  datatype Outcome = Outcome(matcher: Matcher, state: TokenState, used: bool)

  predicate Possible(token: string, index: nat, c: char) {
    |token| > index && token[index] == c
  }

  /** How many tokens have `c` as their `index`th character: earlier characters are not compared. */
  function Possibles(tokens: seq<string>, index: nat, c: char): nat {
    if tokens == [] then 0
    else Possibles(tokens[..|tokens| - 1], index, c) + (if Possible(tokens[|tokens| - 1], index, c) then 1 else 0)
  }

  predicate Completes(tokens: seq<string>, index: nat, c: char) {
    exists token <- tokens :: Possible(token, index, c) && |token| == index + 1
  }

  function Recognise(tokens: seq<string>, m: Matcher, c: char): Outcome {
    var n := Possibles(tokens, m.index, c);
    if n > 0 then
      var m' := Matcher(m.index + 1, m.longest, (if m.index == 0 then "" else m.current) + [c]);
      if Completes(tokens, m.index, c) then
        if n == 1 then Outcome(m'.(index := 0, longest := 0), Valid, true)
        else Outcome(m'.(longest := m'.index), Reading, true)
      else Outcome(m', Reading, true)
    else if m.index == 0 then Outcome(m, Reading, false)
    else if m.longest > 0 then Outcome(Matcher(0, 0, m.current), Valid, false)
    else Outcome(m.(index := 0), Invalid, false)
  }

  class TokenRecogniser {
    var tokens: seq<string>
    var index: nat
    var longestValid: nat
    var currentToken: string

    constructor ()
      ensures tokens == [] && Value() == Matcher(0, 0, "")
    {
      tokens, index, longestValid, currentToken := [], 0, 0, "";
    }

    function Value(): Matcher
      reads this
    {
      Matcher(index, longestValid, currentToken)
    }

    /** Empty tokens are silently ignored. */
    method AddToken(token: string)
      modifies this`tokens
      ensures tokens == if token == "" then old(tokens) else old(tokens) + [token]
    {
      if |token| > 0 {
        tokens := tokens + [token];
      }
    }

    method ProcessChar(c: char) returns (used: bool, state: TokenState)
      modifies this`index, this`longestValid, this`currentToken
      ensures Outcome(Value(), state, used) == Recognise(tokens, old(Value()), c)
    {
      var nPossibles := 0;
      var atLeastOneIsValid := false;
      for i := 0 to |tokens|
        invariant nPossibles == Possibles(tokens[..i], index, c)
        invariant atLeastOneIsValid == Completes(tokens[..i], index, c)
      {
        assert tokens[..i + 1][..i] == tokens[..i];
        assert forall token :: token in tokens[..i + 1] <==> token in tokens[..i] || token == tokens[i];
        if |tokens[i]| > index && tokens[i][index] == c {
          nPossibles := nPossibles + 1;
          if |tokens[i]| == index + 1 {
            atLeastOneIsValid := true;
          }
        }
      }
      assert tokens[..|tokens|] == tokens;

      state := Reading;
      if nPossibles > 0 {
        if index == 0 {
          currentToken := "";
        }
        index := index + 1;
        currentToken := currentToken + [c];
        if atLeastOneIsValid {
          if nPossibles == 1 {
            state := Valid;
            index := 0;
            longestValid := 0;
          } else {
            longestValid := index;
          }
        }
        return true, state;
      }
      if index == 0 {
        return false, state;
      }
      index := 0;
      if longestValid > 0 {
        state := Valid;
        longestValid := 0;
      } else {
        state := Invalid;
      }
      return false, state;
    }
  }

  // ---------- What a family of tokens is, and what the recogniser does on one ----------

  predicate Distinct(tokens: seq<string>) {
    forall i, j :: 0 <= i < j < |tokens| ==> tokens[i] != tokens[j]
  }

  /** Distinct non-empty tokens, each the stem or the stem and one more character; a token that is
      the stem itself is not alone. */
  ghost predicate Family(tokens: seq<string>, stem: string) {
    && Distinct(tokens)
    && (forall t <- tokens :: t != "" && (t == stem || (|t| == |stem| + 1 && stem < t)))
    && (stem in tokens ==> |tokens| > 1)
  }

  /** Shifted by `j`, the tag agrees with itself up to `k` and wants another character there. */
  predicate BadShift(tag: string, j: nat, k: nat)
    requires j <= k < |tag|
  {
    tag[j..k] == tag[..k - j] && tag[k - j] != tag[k]
  }

  /** The recogniser has no failure function, so a token may not match itself at a shift and then
      need a different character from the one that follows the shifted match. */
  predicate ShiftSafe(token: string) {
    forall j, k | 0 < j < k < |token| :: !BadShift(token, j, k)
  }

  ghost predicate AllShiftSafe(tokens: seq<string>) {
    forall t <- tokens :: ShiftSafe(t)
  }

  /** A matcher that has just seen the first `index` characters of the stem. */
  ghost predicate OnStem(m: Matcher, tokens: seq<string>, stem: string) {
    && m.index <= |stem|
    && (m.index > 0 ==> m.current == stem[..m.index])
    && m.longest == (if m.index == |stem| > 0 && stem in tokens then |stem| else 0)
  }

  function Pending(m: Matcher): string {
    if m.index == 0 then "" else m.current
  }

  lemma PossiblesAll(tokens: seq<string>, index: nat, c: char)
    requires forall t <- tokens :: Possible(t, index, c)
    ensures Possibles(tokens, index, c) == |tokens|
  {
  }

  lemma PossiblesNone(tokens: seq<string>, index: nat, c: char)
    requires forall t <- tokens :: !Possible(t, index, c)
    ensures Possibles(tokens, index, c) == 0
  {
  }

  lemma PossiblesOne(tokens: seq<string>, index: nat, c: char, i: nat)
    requires i < |tokens| && Possible(tokens[i], index, c)
    requires forall j | 0 <= j < |tokens| && j != i :: !Possible(tokens[j], index, c)
    ensures Possibles(tokens, index, c) == 1
  {
    var front := tokens[..|tokens| - 1];
    if i == |tokens| - 1 {
      PossiblesNone(front, index, c);
    } else {
      PossiblesOne(front, index, c, i);
    }
  }

  /** The three things that can happen to a character when `k` characters of the stem are held. */
  predicate Advances(stem: string, k: nat, c: char) {
    k < |stem| && c == stem[k]
  }

  predicate Finishes(tokens: seq<string>, stem: string, k: nat, c: char) {
    k == |stem| && stem + [c] in tokens
  }

  predicate Refuses(tokens: seq<string>, stem: string, k: nat, c: char) {
    k <= |stem| && !Advances(stem, k, c) && !Finishes(tokens, stem, k, c)
  }

  /** What was held is the stem, and the stem is itself a token. */
  predicate HoldsToken(tokens: seq<string>, stem: string, k: nat) {
    k == |stem| > 0 && stem in tokens
  }

  /** One call on a family: it advances along the stem, completes a longer token, or gives back what
      it held, as the stem token when that is one and as refused input otherwise. */
  lemma RecogniseFamily(tokens: seq<string>, stem: string, m: Matcher, c: char)
    requires Family(tokens, stem) && OnStem(m, tokens, stem) && (tokens == [] ==> stem == "")
    ensures var r := Recognise(tokens, m, c);
      && OnStem(r.matcher, tokens, stem)
      && (Advances(stem, m.index, c) ==>
            r.used && r.state == Reading && r.matcher.index == m.index + 1 && Pending(r.matcher) == Pending(m) + [c])
      && (Finishes(tokens, stem, m.index, c) ==>
            r.used && r.state == Valid && r.matcher.index == 0 && r.matcher.current == Pending(m) + [c] == stem + [c])
      && (Refuses(tokens, stem, m.index, c) ==>
            && !r.used && r.matcher.index == 0 && (m.index > 0 ==> r.matcher.current == Pending(m))
            && r.state == if m.index == 0 then Reading else if HoldsToken(tokens, stem, m.index) then Valid else Invalid)
    ensures Pending(m) == stem[..m.index]
  {
    var k := m.index;
    if k < |stem| {
      assert forall t <- tokens :: |t| > k && t[k] == stem[k];
      if c == stem[k] {
        assert stem[..k + 1] == stem[..k] + [c];
        PossiblesAll(tokens, k, c);
        if k + 1 == |stem| && stem in tokens {
          assert Possible(stem, k, c);
        }
      } else {
        PossiblesNone(tokens, k, c);
      }
    } else {
      forall t <- tokens | Possible(t, k, c) ensures t == stem + [c] {}
      if stem + [c] in tokens {
        var i :| 0 <= i < |tokens| && tokens[i] == stem + [c];
        PossiblesOne(tokens, k, c, i);
      } else {
        PossiblesNone(tokens, k, c);
      }
    }
  }

  /** Input that a family has refused holds no token, and no start of one, at any position before
      the refused character. */
  lemma RefusedHoldsNoToken(tokens: seq<string>, stem: string, k: nat, c: char, rest: string, j: nat, t: string)
    requires Family(tokens, stem) && AllShiftSafe(tokens) && t in tokens
    requires Refuses(tokens, stem, k, c) && !HoldsToken(tokens, stem, k)
    requires j < k || j == k == 0
    ensures var s := (stem[..k] + [c] + rest)[j..]; !(t <= s) && !(s <= t)
  {
    var s := (stem[..k] + [c] + rest)[j..];
    assert s[k - j] == c && s[..k - j] == stem[j..k];
    assert |t| > k && t[j..k] == stem[j..k];
    if k == |stem| {
      assert t == stem + [t[k]];
    }
    assert t[k] != c;
    if t[..k - j] == t[j..k] {
      assert j > 0 ==> !BadShift(t, j, k);
    } else {
      assert t[..k - j] != s[..k - j];
    }
  }

  // ---------- Exactly which tags a lone recogniser finds ----------

  /** Whether a recogniser for one tag ever reports it, a refused character being tried again. */
  ghost predicate Finds(tag: string, m: Matcher, s: string)
    decreases |s|, m.index
  {
    if s == "" then false
    else
      var r := Recognise([tag], m, s[0]);
      if r.state == Valid then true
      else if r.state == Invalid then m.index > 0 && Finds(tag, r.matcher, s)
      else Finds(tag, r.matcher, s[1..])
  }

  ghost predicate Contains(s: string, tag: string) {
    exists i | 0 <= i <= |s| :: tag <= s[i..]
  }

  lemma LoneFamily(tag: string, m: Matcher, c: char)
    requires tag != "" && OnStem(m, [tag], tag[..|tag| - 1])
    ensures Family([tag], tag[..|tag| - 1])
    ensures var r := Recognise([tag], m, c);
      && OnStem(r.matcher, [tag], tag[..|tag| - 1])
      && (c == tag[m.index] && m.index + 1 < |tag| ==> r.used && r.state == Reading && r.matcher.index == m.index + 1)
      && (c == tag[m.index] && m.index + 1 == |tag| ==> r.state == Valid)
      && (c != tag[m.index] ==> r.matcher.index == 0 && r.state == if m.index == 0 then Reading else Invalid)
  {
    var stem := tag[..|tag| - 1];
    assert tag == stem + [tag[|tag| - 1]];
    RecogniseFamily([tag], stem, m, c);
    if m.index == |stem| && c != tag[m.index] {
      assert (stem + [c])[|stem|] != tag[|stem|];
    }
  }

  /** Too few characters left to complete the tag. */
  lemma {:induction false} TooShort(tag: string, m: Matcher, s: string)
    requires tag != "" && OnStem(m, [tag], tag[..|tag| - 1]) && m.index + |s| < |tag|
    ensures !Finds(tag, m, s)
    decreases |s|, m.index
  {
    if s != "" {
      LoneFamily(tag, m, s[0]);
      var r := Recognise([tag], m, s[0]);
      if r.state == Invalid {
        TooShort(tag, r.matcher, s);
      } else {
        TooShort(tag, r.matcher, s[1..]);
      }
    }
  }

  lemma NothingHeld(tag: string, s: string)
    ensures tag[..0] + s == s
  {
  }

  /** The recogniser holding `k` characters of a shift-safe tag finds it in what follows exactly when
      it occurs in those characters and what follows. */
  lemma {:induction false} FindsAll(tag: string, m: Matcher, s: string)
    requires tag != "" && ShiftSafe(tag) && OnStem(m, [tag], tag[..|tag| - 1])
    ensures Finds(tag, m, s) <==> Contains(tag[..m.index] + s, tag)
    decreases |s|, m.index
  {
    var k := m.index;
    if s == "" {
      assert forall i | 0 <= i <= k :: |(tag[..k] + s)[i..]| < |tag|;
    } else {
      var c, rest := s[0], s[1..];
      LoneFamily(tag, m, c);
      var next := Recognise([tag], m, c).matcher;
      if c != tag[k] {
        RefusedSuffix(tag, k, s);
        FindsAll(tag, next, if k > 0 then s else rest);
        NothingHeld(tag, if k > 0 then s else rest);
      } else {
        HeldOneMore(tag, k, s);
        if k + 1 < |tag| {
          FindsAll(tag, next, rest);
        }
      }
    }
  }

  lemma HeldOneMore(tag: string, k: nat, s: string)
    requires k < |tag| && s != "" && s[0] == tag[k]
    ensures tag[..k] + s == tag[..k + 1] + s[1..]
    ensures k + 1 == |tag| ==> Contains(tag[..k] + s, tag)
  {
    assert (tag[..k] + s)[0..] == tag[..k] + s;
  }

  lemma RefusedSuffix(tag: string, k: nat, s: string)
    requires tag != "" && ShiftSafe(tag) && k < |tag| && s != "" && s[0] != tag[k]
    ensures Contains(tag[..k] + s, tag) <==> Contains(if k > 0 then s else s[1..], tag)
  {
    var stem, c, rest := tag[..|tag| - 1], s[0], s[1..];
    var all := stem[..k] + [c] + rest;
    assert all == tag[..k] + s;
    var n := if k > 0 then k else 1;
    assert tag == stem + [tag[|tag| - 1]];
    assert k == |stem| ==> (stem + [c])[k] != tag[k];
    forall i | 0 <= i < n ensures !(tag <= all[i..]) {
      RefusedHoldsNoToken([tag], stem, k, c, rest, i, tag);
    }
    assert all[n..] == if k > 0 then s else rest;
    ContainsLater(all, n, tag);
  }

  lemma ContainsLater(s: string, n: nat, tag: string)
    requires n <= |s| && forall i | 0 <= i < n :: !(tag <= s[i..])
    ensures Contains(s, tag) <==> Contains(s[n..], tag)
  {
    if Contains(s, tag) {
      var i :| 0 <= i <= |s| && tag <= s[i..];
      assert s[n..][i - n..] == s[i..];
    }
    if Contains(s[n..], tag) {
      var i :| 0 <= i <= |s[n..]| && tag <= s[n..][i..];
      assert s[i + n..] == s[n..][i..];
    }
  }

  /** A tag that is not shift-safe occurs in an input in which the recogniser does not find it. */
  lemma Misses(tag: string, j: nat, k: nat)
    requires 0 < j < k < |tag| && BadShift(tag, j, k)
    ensures var s := tag[..k] + tag[k - j..]; Contains(s, tag) && !Finds(tag, Matcher(0, 0, ""), s)
  {
    var s := tag[..k] + tag[k - j..];
    assert s[j..] == tag[j..k] + tag[k - j..] == tag;
    var m := FeedStart(tag, Matcher(0, 0, ""), k, s);
    assert s[k..][0] == tag[k - j];
    LoneFamily(tag, m, s[k]);
    TooShort(tag, Recognise([tag], m, s[k]).matcher, s[k..]);
  }

  lemma {:induction false} FeedStart(tag: string, m: Matcher, k: nat, s: string) returns (m': Matcher)
    requires tag != "" && OnStem(m, [tag], tag[..|tag| - 1]) && m.index <= k < |tag| && tag[m.index..k] <= s
    ensures OnStem(m', [tag], tag[..|tag| - 1]) && m'.index == k
    ensures Finds(tag, m, s) <==> Finds(tag, m', s[k - m.index..])
    decreases k - m.index
  {
    if m.index == k {
      m' := m;
      assert s[0..] == s;
    } else {
      assert s[0] == tag[m.index..k][0];
      LoneFamily(tag, m, s[0]);
      var next := Recognise([tag], m, s[0]).matcher;
      assert s[1..][..k - m.index - 1] == tag[m.index + 1..k] by {
        assert s[..k - m.index] == tag[m.index..k];
      }
      m' := FeedStart(tag, next, k, s[1..]);
      assert s[1..][k - next.index..] == s[k - m.index..];
    }
  }

  /** The recogniser finds every occurrence of a tag in every input if and only if the tag is
      shift-safe. */
  lemma FindsAllIffShiftSafe(tag: string)
    requires tag != ""
    ensures (forall s :: Finds(tag, Matcher(0, 0, ""), s) <==> Contains(s, tag)) <==> ShiftSafe(tag)
  {
    var start := Matcher(0, 0, "");
    if ShiftSafe(tag) {
      forall s ensures Finds(tag, start, s) <==> Contains(s, tag) {
        FindsAll(tag, start, s);
        NothingHeld(tag, s);
      }
    } else {
      var j, k :| 0 < j < k < |tag| && BadShift(tag, j, k);
      Misses(tag, j, k);
      var s := tag[..k] + tag[k - j..];
      assert !(Finds(tag, start, s) <==> Contains(s, tag));
    }
  }

  /** Having no border is not enough: "aab" has none, and is missed in "aaab". */
  lemma BorderFreeIsNotEnough()
    ensures forall n | 0 < n < 3 :: "aab"[..n] != "aab"[3 - n..]
    ensures !ShiftSafe("aab") && Contains("aaab", "aab") && !Finds("aab", Matcher(0, 0, ""), "aaab")
  {
    var tag := "aab";
    assert tag[1..2] == tag[..1] && BadShift(tag, 1, 2);
    Misses(tag, 1, 2);
    assert tag[..2] + tag[1..] == "aaab";
    assert tag[..1][0] != tag[2..][0] && tag[..2][1] != tag[1..][1];
  }
}
