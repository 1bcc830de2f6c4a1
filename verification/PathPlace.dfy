/** Where paths lead: what resolving one path against another keeps of their meaning. */
module PathPlaces {
  import opened Paths
  import opened Options
  import opened Sequences

  /** A place in the directory tree, taken by names: so far above the start, and then down. */
  datatype Place = Place(absolute: bool, above: nat, down: seq<string>)

  function Start(absolute: bool): Place {
    Place(absolute, 0, [])
  }

  function Step(p: Place, c: string): Place {
    if c == "." then p
    else if c != ".." then p.(down := p.down + [c])
    else if p.down != [] then p.(down := p.down[..|p.down| - 1])
    else if p.absolute then p
    else p.(above := p.above + 1)
  }

  function Walk(p: Place, cs: seq<string>): Place
    decreases |cs|
  {
    if cs == [] then p else Walk(Step(p, cs[0]), cs[1..])
  }

  function Parts(s: string): seq<string> {
    if s == [] then [] else [s]
  }

  /** The components of a path; empty ones mean nothing. */
  function Split(s: string): seq<string> {
    match LastOf(s, SEPARATOR)
    case None => Parts(s)
    case Some(i) => Split(s[..i]) + Parts(s[i + 1..])
  }

  /** The place that a path means. */
  function Denoted(path: string): Place {
    Walk(Start(IsAbsolute(path)), Split(path))
  }

  function Dots(k: nat): (r: seq<string>)
    ensures |r| == k && forall c <- r :: c == ".."
  {
    if k == 0 then [] else [".."] + Dots(k - 1)
  }

  predicate Names(cs: seq<string>) {
    forall i | 0 <= i < |cs| :: cs[i] != "." && cs[i] != ".."
  }

  lemma FirstName(cs: seq<string>)
    requires cs != []
    ensures Names(cs) <==> cs[0] != "." && cs[0] != ".." && Names(cs[1..])
  {
    assert forall i | 1 <= i < |cs| :: cs[i] == cs[1..][i - 1];
  }

  // ---------- Paths and their components ----------

  lemma SplitLast(a: string, b: string)
    requires SEPARATOR !in b && b != []
    ensures Split(a + [SEPARATOR] + b) == Split(a) + [b]
  {
    LastIs(a, SEPARATOR, b);
    DropLeft(a + [SEPARATOR], b);
    assert (a + [SEPARATOR] + b)[..|a|] == a;
  }

  lemma SplitOne(absolute: bool, c: string)
    requires IsComponent(c)
    ensures Split(Written(absolute, [c])) == [c]
  {
    if absolute {
      EmptyLeft([SEPARATOR]);
      SplitLast([], c);
      EmptyLeft([c]);
    } else {
      NowhereIs(c, SEPARATOR);
      EmptyLeft(c);
    }
  }

  lemma {:induction false} SplitWritten(absolute: bool, cs: seq<string>)
    requires Components(cs) && cs != []
    ensures Split(Written(absolute, cs)) == cs
  {
    var n := |cs| - 1;
    if n == 0 {
      assert cs == [cs[0]];
      SplitOne(absolute, cs[0]);
    } else {
      var init, last := cs[..n], cs[n];
      SplitWritten(absolute, init);
      assert cs == init + [last];
      SplitMore(absolute, init, last);
    }
  }

  lemma SplitMore(absolute: bool, init: seq<string>, last: string)
    requires init != [] && IsComponent(last) && Split(Written(absolute, init)) == init
    ensures Split(Written(absolute, init + [last])) == init + [last]
  {
    var cs := init + [last];
    assert cs[..|cs| - 1] == init && cs[|cs| - 1] == last;
    LastSlash(absolute, cs);
    SplitLast(Written(absolute, init), last);
  }

  lemma {:induction false} UpsWritten(k: nat, rs: seq<string>)
    requires Components(rs) && rs != []
    ensures Ups(k) + Joined(rs) == Joined(Dots(k) + rs)
  {
    if k == 0 {
      EmptyLeft(rs);
      EmptyLeft(Joined(rs));
    } else {
      UpsWritten(k - 1, rs);
      OneMoreUp(k - 1, rs);
    }
  }

  lemma DotsAreComponents(k: nat, rs: seq<string>)
    requires Components(rs)
    ensures Components(Dots(k) + rs)
  {
    var all := Dots(k) + rs;
    forall i | 0 <= i < |all| ensures IsComponent(all[i]) {
      assert i < k ==> all[i] == Dots(k)[i] && Dots(k)[i] in Dots(k);
      assert i >= k ==> all[i] == rs[i - k];
    }
  }

  lemma OneMoreUp(k: nat, rs: seq<string>)
    requires rs != []
    ensures Dots(k + 1) + rs == [".."] + (Dots(k) + rs)
    ensures Ups(k + 1) + Joined(rs) == "../" + (Ups(k) + Joined(rs))
    ensures Joined([".."] + (Dots(k) + rs)) == "../" + Joined(Dots(k) + rs)
  {
    Assoc([".."], Dots(k), rs);
    Assoc("../", Ups(k), Joined(rs));
    JoinedConcat([".."], Dots(k) + rs);
    assert ".." + [SEPARATOR] == "../";
  }

  lemma WrittenMeans(absolute: bool, cs: seq<string>)
    requires Components(cs) && cs != []
    ensures Denoted(Written(absolute, cs)) == Walk(Start(absolute), cs)
  {
    SplitWritten(absolute, cs);
    JoinedIsClean(cs);
    EmptyLeft(Joined(cs));
  }

  // ---------- Walking ----------

  lemma {:induction false} WalkConcat(p: Place, a: seq<string>, b: seq<string>)
    ensures Walk(p, a + b) == Walk(Walk(p, a), b)
    decreases |a|
  {
    if a == [] {
      EmptyLeft(b);
    } else {
      assert (a + b)[1..] == a[1..] + b;
      WalkConcat(Step(p, a[0]), a[1..], b);
    }
  }

  /** How deep a place is; negative above the start. */
  function Depth(p: Place): int {
    |p.down| - p.above
  }

  function Gain(cs: seq<string>): (g: int)
    ensures g <= |cs| && (g == |cs| <==> Names(cs))
  {
    if cs == [] then 0
    else
      FirstName(cs);
      var later := Gain(cs[1..]);
      later + if cs[0] == "." then 0 else if cs[0] == ".." then -1 else 1
  }

  /** Each name leads one down, each step up one up, except at the root. */
  lemma {:induction false} WalkDepth(p: Place, cs: seq<string>)
    requires !p.absolute || ".." !in cs
    ensures Depth(Walk(p, cs)) == Depth(p) + Gain(cs) && Walk(p, cs).absolute == p.absolute
    decreases |cs|
  {
    if cs != [] {
      WalkDepth(Step(p, cs[0]), cs[1..]);
    }
  }

  /** From an absolute place: no deeper than the names lead, and as deep exactly if there is nothing else. */
  lemma {:induction false} AbsoluteDepth(p: Place, cs: seq<string>)
    requires p.absolute && p.above == 0
    ensures var q := Walk(p, cs); q.absolute && q.above == 0 && |q.down| <= |p.down| + |cs|
    ensures |Walk(p, cs).down| == |p.down| + |cs| <==> Names(cs)
    decreases |cs|
  {
    if cs != [] {
      FirstName(cs);
      AbsoluteDepth(Step(p, cs[0]), cs[1..]);
    }
  }

  lemma {:induction false} UpFromAbsolute(p: Place, k: nat)
    requires p.absolute && p.above == 0
    ensures var q := Walk(p, Dots(k)); q.absolute && q.above == 0 && |q.down| == if |p.down| <= k then 0 else |p.down| - k
    decreases k
  {
    if k > 0 {
      assert Dots(k)[0] == ".." && Dots(k)[1..] == Dots(k - 1);
      UpFromAbsolute(Step(p, ".."), k - 1);
    }
  }

  lemma {:induction false} DotsConcat(a: nat, b: nat)
    ensures Dots(a) + Dots(b) == Dots(a + b)
  {
    if a > 0 {
      DotsConcat(a - 1, b);
      Assoc([".."], Dots(a - 1), Dots(b));
    } else {
      EmptyLeft(Dots(b));
    }
  }

  /** Names are undone by as many steps up. */
  lemma {:induction false} NamesUndone(p: Place, cs: seq<string>)
    requires Names(cs)
    ensures Walk(p, cs + Dots(|cs|)) == p
    decreases |cs|
  {
    if cs == [] {
      assert cs + Dots(0) == [];
    } else {
      var n := |cs| - 1;
      var q := Walk(p, cs[..n]);
      assert cs == cs[..n] + [cs[n]] && cs[n] in cs;
      assert cs + Dots(n + 1) == cs[..n] + ([cs[n], ".."] + Dots(n));
      WalkConcat(p, cs[..n], [cs[n], ".."] + Dots(n));
      OneUndone(q, cs[n], Dots(n));
      WalkConcat(p, cs[..n], Dots(n));
      NamesUndone(p, cs[..n]);
    }
  }

  lemma OneUndone(p: Place, c: string, rest: seq<string>)
    requires c != "." && c != ".."
    ensures Walk(p, [c, ".."] + rest) == Walk(p, rest)
  {
    var all := [c, ".."] + rest;
    assert all[1..] == [".."] + rest && ([".."] + rest)[1..] == rest;
    assert Step(p, c).down[..|p.down|] == p.down;
    assert Step(Step(p, c), "..") == p;
  }

  // ---------- Resolving ----------

  /** Where steps up from a directory lead when the components are dropped instead. */
  lemma DroppedIsUndoneIff(p: Place, dropped: seq<string>)
    requires p.absolute ==> p.above == 0
    ensures Walk(p, dropped + Dots(|dropped|)) == p <==> Names(dropped) || (p.absolute && p.down == [])
    ensures !p.absolute && !Names(dropped) ==> Depth(Walk(p, dropped + Dots(|dropped|))) < Depth(p)
    ensures p.absolute && !Names(dropped) && p.down != [] ==> Depth(Walk(p, dropped + Dots(|dropped|))) < Depth(p)
    ensures Walk(p, dropped + Dots(|dropped|)).absolute == p.absolute
  {
    var m := |dropped|;
    WalkConcat(p, dropped, Dots(m));
    if Names(dropped) {
      NamesUndone(p, dropped);
    } else if p.absolute {
      AbsoluteDepth(p, dropped);
      UpFromAbsolute(Walk(p, dropped), m);
    } else {
      WalkDepth(p, dropped);
      WalkDepth(Walk(p, dropped), Dots(m));
      DotsGain(m);
    }
  }

  lemma {:induction false} DotsGain(k: nat)
    ensures Gain(Dots(k)) == 0 - k
  {
    if k > 0 {
      assert Dots(k)[0] == ".." && Dots(k)[1..] == Dots(k - 1);
      DotsGain(k - 1);
    }
  }

  /** The place that is meant: from the base's directory, so many steps up and then the rest. */
  function Meant(absolute: bool, ds: seq<string>, k: nat, rs: seq<string>): Place {
    Walk(Walk(Start(absolute), ds), Dots(k) + rs)
  }

  /** The path that resolving gives leads to the place that is meant exactly if all the components it drops are names:
      not steps up, nor the current directory.  An absolute path may also drop those at the root. */
  lemma PlaceKeptIff(absolute: bool, cs: seq<string>, k: nat, rs: seq<string>)
    requires Components(cs) && cs != [] && NoDotFirst(absolute, cs[..|cs| - 1]) && Rest(rs)
    requires absolute ==> ".." !in rs
    ensures var ds := cs[..|cs| - 1];
            var m := if k <= |ds| then k else |ds|;
            var front, dropped := ds[..|ds| - m], ds[|ds| - m..];
            Denoted(Resolved(Written(absolute, cs), Ups(k) + Joined(rs))) == Meant(absolute, ds, k, rs) <==>
            Names(dropped) || (absolute && Walk(Start(true), front).down == [])
  {
    var ds := cs[..|cs| - 1];
    var m := if k <= |ds| then k else |ds|;
    var front, dropped := ds[..|ds| - m], ds[|ds| - m..];
    ResolvedMeans(absolute, cs, k, rs);
    assert ds == front + dropped;
    KeptIff(absolute, front, dropped, k, rs);
  }

  lemma KeptIff(absolute: bool, front: seq<string>, dropped: seq<string>, k: nat, rs: seq<string>)
    requires |dropped| <= k && (|dropped| < k ==> front == []) && (absolute ==> ".." !in rs)
    ensures var p := Walk(Start(absolute), front);
            Walk(p, if absolute then rs else Dots(k - |dropped|) + rs) == Meant(absolute, front + dropped, k, rs) <==>
            Names(dropped) || (absolute && p.down == [])
  {
    WalkIsAbsolute(absolute, front);
    MeantIs(absolute, front, dropped, k, rs);
    StaysIff(Walk(Start(absolute), front), dropped, if absolute then rs else Dots(k - |dropped|) + rs);
  }

  /** What follows does not make up for a wrong place. */
  lemma StaysIff(p: Place, dropped: seq<string>, later: seq<string>)
    requires p.absolute ==> p.above == 0 && ".." !in later
    ensures Walk(p, later) == Walk(Walk(p, dropped + Dots(|dropped|)), later) <==> Names(dropped) || (p.absolute && p.down == [])
  {
    var q := Walk(p, dropped + Dots(|dropped|));
    DroppedIsUndoneIff(p, dropped);
    if q != p {
      WalkDepth(p, later);
      WalkDepth(q, later);
    }
  }

  lemma WalkIsAbsolute(absolute: bool, cs: seq<string>)
    ensures var p := Walk(Start(absolute), cs); p.absolute == absolute && (absolute ==> p.above == 0)
  {
    if absolute {
      AbsoluteDepth(Start(true), cs);
    } else {
      WalkDepth(Start(false), cs);
    }
  }

  /** Steps up beyond the root change nothing. */
  lemma MeantIs(absolute: bool, front: seq<string>, dropped: seq<string>, k: nat, rs: seq<string>)
    requires |dropped| <= k && (|dropped| < k ==> front == [])
    ensures var p, m := Walk(Start(absolute), front), |dropped|;
            Meant(absolute, front + dropped, k, rs) ==
            Walk(Walk(p, dropped + Dots(m)), if absolute then rs else Dots(k - m) + rs)
  {
    var p, m := Walk(Start(absolute), front), |dropped|;
    WalkConcat(Start(absolute), front, dropped);
    WalkConcat(Walk(p, dropped), Dots(k), rs);
    DotsConcat(m, k - m);
    WalkConcat(Walk(p, dropped), Dots(m), Dots(k - m));
    WalkConcat(p, dropped, Dots(m));
    var q := Walk(p, dropped + Dots(m));
    WalkConcat(q, Dots(k - m), rs);
    if absolute {
      if k > m {
        AbsoluteDepth(p, dropped);
        UpFromAbsolute(Walk(p, dropped), m);
        UpFromAbsolute(q, k - m);
      } else {
        assert Walk(q, Dots(0)) == q;
      }
    }
  }

  lemma ResolvedMeans(absolute: bool, cs: seq<string>, k: nat, rs: seq<string>)
    requires Components(cs) && cs != [] && NoDotFirst(absolute, cs[..|cs| - 1]) && Rest(rs)
    ensures var ds := cs[..|cs| - 1];
            var m := if k <= |ds| then k else |ds|;
            Denoted(Resolved(Written(absolute, cs), Ups(k) + Joined(rs))) ==
            Walk(Walk(Start(absolute), ds[..|ds| - m]), if absolute then rs else Dots(k - m) + rs)
  {
    var n := |cs| - 1;
    if k <= n {
      WithinMeans(absolute, cs, k, rs, cs[..n][..n - k]);
      EmptyLeft(rs);
    } else {
      assert cs[..n][..n - n] == [];
      if absolute {
        RootMeans(cs, k, rs);
      } else {
        BeyondMeans(cs, k, rs, k - n);
      }
    }
  }

  lemma WithinMeans(absolute: bool, cs: seq<string>, k: nat, rs: seq<string>, front: seq<string>)
    requires Components(cs) && k <= |cs| - 1 && front == cs[..|cs| - 1][..|cs| - 1 - k]
    requires NoDotFirst(absolute, cs[..|cs| - 1]) && Rest(rs)
    ensures Denoted(Resolved(Written(absolute, cs), Ups(k) + Joined(rs))) == Walk(Walk(Start(absolute), front), rs)
  {
    ResolvedWithin(absolute, cs, k, rs, front);
    WrittenMeans(absolute, front + rs);
    WalkConcat(Start(absolute), front, rs);
  }

  lemma RootMeans(cs: seq<string>, k: nat, rs: seq<string>)
    requires Components(cs) && cs != [] && k > |cs| - 1 && Rest(rs)
    ensures Denoted(Resolved(Written(true, cs), Ups(k) + Joined(rs))) == Walk(Start(true), rs)
  {
    ResolvedAtRoot(cs, k, rs);
    WrittenMeans(true, rs);
  }

  lemma BeyondMeans(cs: seq<string>, k: nat, rs: seq<string>, j: nat)
    requires Components(cs) && cs != [] && j > 0 && k == j + |cs| - 1 && NoDotFirst(false, cs[..|cs| - 1]) && Rest(rs)
    ensures Denoted(Resolved(Written(false, cs), Ups(k) + Joined(rs))) == Walk(Start(false), Dots(j) + rs)
  {
    ResolvedBeyond(cs, k, rs, j);
    UpsWritten(j, rs);
    DotsAreComponents(j, rs);
    WrittenMeans(false, Dots(j) + rs);
    EmptyLeft(Joined(Dots(j) + rs));
  }

  /** The same place is reached from a base with "." in front. */
  predicate DotChangesNothing(cs: seq<string>, path: string) {
    Denoted(Resolved(Written(false, ["."] + cs), path)) == Denoted(Resolved(Written(false, cs), path))
  }

  /** A base that starts with the current directory, written ".", leads to the same place as without it. */
  lemma DotFirstIsSame(cs: seq<string>, k: nat, rs: seq<string>)
    requires Components(cs) && cs != [] && NoDotFirst(false, cs[..|cs| - 1]) && Rest(rs)
    ensures DotChangesNothing(cs, Ups(k) + Joined(rs))
  {
    if k < |cs| - 1 {
      WithinIsSame(cs, k, rs, cs[..|cs| - 1][..|cs| - 1 - k]);
    } else if k == |cs| - 1 {
      FromDotToDot(cs, k, rs);
      ToDotIsRest(cs, k, rs);
    } else {
      BeyondIsSame(cs, k, rs, k - (|cs| - 1));
    }
  }

  lemma WithinIsSame(cs: seq<string>, k: nat, rs: seq<string>, front: seq<string>)
    requires Components(cs) && k < |cs| - 1 && front == cs[..|cs| - 1][..|cs| - 1 - k]
    requires NoDotFirst(false, cs[..|cs| - 1]) && Rest(rs)
    ensures DotChangesNothing(cs, Ups(k) + Joined(rs))
  {
    FromDotWithin(cs, k, rs, front);
    ResolvedWithin(false, cs, k, rs, front);
    Assoc(["."], front, rs);
    DotMeansNothing(front + rs);
  }

  lemma BeyondIsSame(cs: seq<string>, k: nat, rs: seq<string>, j: nat)
    requires Components(cs) && cs != [] && j > 0 && k == j + |cs| - 1 && NoDotFirst(false, cs[..|cs| - 1]) && Rest(rs)
    ensures DotChangesNothing(cs, Ups(k) + Joined(rs))
  {
    FromDotBeyond(cs, k, rs, j);
    ResolvedBeyond(cs, k, rs, j);
  }

  lemma ToDotIsRest(cs: seq<string>, k: nat, rs: seq<string>)
    requires Components(cs) && k == |cs| - 1 && NoDotFirst(false, cs[..|cs| - 1]) && Rest(rs)
    ensures Resolved(Written(false, cs), Ups(k) + Joined(rs)) == Joined(rs)
  {
    var front := cs[..k][..k - k];
    ResolvedWithin(false, cs, k, rs, front);
    assert front == [];
    EmptyLeft(rs);
    EmptyLeft(Joined(rs));
  }

  lemma DotMeansNothing(cs: seq<string>)
    requires Components(cs) && cs != []
    ensures Denoted(Written(false, ["."] + cs)) == Denoted(Written(false, cs))
  {
    WrittenMeans(false, cs);
    WrittenMeans(false, ["."] + cs);
    StepLeads(Start(false), ".", cs);
  }

  /** A step up in the base's directory is dropped like any other component: "../y" against "../x" is meant to lead two
      up, but stays here. */
  lemma StepUpIsDropped()
    ensures Resolved("../x", "../y") == "y" && Denoted("y") == Place(false, 0, ["y"])
    ensures Meant(false, [".."], 1, ["y"]) == Place(false, 2, ["y"])
  {
    DroppedHere();
    StepLeads(Start(false), "y", []);
    StepLeads(Start(false), "..", []);
    StepLeads(Place(false, 1, []), "..", ["y"]);
    StepLeads(Place(false, 2, []), "y", []);
    NowhereIs("y", SEPARATOR);
    assert Dots(1) == [".."] + Dots(0) == [".."];
  }

  lemma StepLeads(p: Place, c: string, rest: seq<string>)
    ensures Walk(p, [c] + rest) == Walk(Step(p, c), rest) && [c] + [] == [c]
  {
    assert ([c] + rest)[1..] == rest;
  }

  lemma DroppedHere()
    ensures Resolved("../x", "../y") == "y"
  {
    DirnameAt("..", "x");
    assert ".." + [SEPARATOR] + "x" == "../x";
    NowhereIs("..", SEPARATOR);
    assert GoesUp("../y") && "../y"[3..] == "y" && !GoesUp("y");
    assert Climbed(".", "y") == (".", "y");
    assert Climbed("..", "../y") == Climbed(Dirname(".."), "../y"[3..]);
  }
}
