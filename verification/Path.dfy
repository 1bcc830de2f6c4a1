/** File paths (libs/file/path.cc): taking apart, putting together and resolving one against another. */
module Paths {
  import opened Options
  import opened Sequences

  const SEPARATOR := '/'
  /** There is no alternative separator here; its character is still looked for behind a slash. */
  const ALTERNATIVE := '\0'

  // ---------- Taking apart and putting together ----------

  /** The last place of a character. */
  function LastOf(s: string, c: char): (r: Option<nat>)
    ensures r.Some? ==> r.value < |s| && s[r.value] == c && forall k | r.value < k < |s| :: s[k] != c
    ensures r.None? ==> forall k | 0 <= k < |s| :: s[k] != c
  {
    if s == [] then None
    else
      var n := |s| - 1;
      if s[n] == c then Some(n) else LastOf(s[..n], c)
  }

  /** The place that parts directory and leaf. */
  function Slash(path: string): (r: Option<nat>)
    ensures r.Some? ==> r.value < |path|
  {
    var slash, other := LastOf(path, SEPARATOR), LastOf(path, ALTERNATIVE);
    if slash.Some? && other.Some? && other.value > slash.value then other else slash
  }

  /** Everything before the last slash; "." without one, "/" for what is in the root. */
  function Dirname(path: string): string {
    match Slash(path)
    case None => "."
    case Some(s) => if s == 0 then "/" else path[..s]
  }

  /** Everything after the last slash. */
  function Leafname(path: string): string {
    match Slash(path)
    case None => path
    case Some(s) => path[s + 1..]
  }

  predicate IsAbsolute(path: string) {
    path != [] && path[0] == SEPARATOR
  }

  /** A path from a directory and a leaf. */
  function Combined(dir: string, leaf: string): string {
    if dir == "." then leaf
    else if dir == [] || dir[|dir| - 1] == SEPARATOR then dir + leaf
    else dir + [SEPARATOR] + leaf
  }

  /** Directory and leaf make the path again, except where the directory is written "." or ends in a slash. */
  lemma PartsRebuildIff(path: string)
    requires ALTERNATIVE !in path
    ensures Combined(Dirname(path), Leafname(path)) == path <==>
            var s := Slash(path); !(s.Some? && s.value > 0 && (path[..s.value] == "." || path[s.value - 1] == SEPARATOR))
  {
    var slash := Slash(path);
    if slash.Some? {
      var s := slash.value;
      Rejoined(path, s);
      if s == 0 {
        assert "/" + path[1..] == path;
      } else if path[..s] != "." && path[s - 1] == SEPARATOR {
        assert |path[..s] + path[s + 1..]| == |path| - 1;
      } else if path[..s] == "." {
        assert |path[s + 1..]| < |path|;
      }
    }
  }

  lemma Rejoined(path: string, s: nat)
    requires s < |path|
    ensures path[..s] + [path[s]] + path[s + 1..] == path
  {
  }

  // ---------- Resolving ----------

  /** A step up, with something behind it. */
  predicate GoesUp(path: string) {
    |path| > 3 && path[0] == '.' && path[1] == '.' && path[2] == SEPARATOR
  }

  /** What is left of a directory and a relative path once no more steps up can be taken: the path alone when the
      directory is used up. */
  function Climbed(dir: string, path: string): (string, string)
    decreases |path|
  {
    if !GoesUp(path) then (dir, path)
    else if dir == "." then ([], path)
    else Climbed(Dirname(dir), path[3..])
  }

  function Resolved(base: string, path: string): string {
    if IsAbsolute(path) then path
    else
      var (dir, rest) := Climbed(Dirname(base), path);
      Combined(dir, rest)
  }

  class Path {
    const path: string

    constructor (path: string)
      ensures this.path == path
    {
      this.path := path;
    }

    /** Resolve one path against another: an absolute one is as it is, a relative one starts at this one's directory. */
    method Resolve(newPath: string) returns (r: string)
      ensures r == Resolved(path, newPath)
    {
      if IsAbsolute(newPath) {
        return newPath;
      }
      var dn, nn := Dirname(path), newPath;
      while GoesUp(nn)
        invariant Climbed(dn, nn) == Climbed(Dirname(path), newPath)
        decreases |nn|
      {
        if dn == "." {
          return nn;
        }
        nn := nn[3..];
        dn := Dirname(dn);
      }
      return Combined(dn, nn);
    }
  }

  // ---------- Paths by their components ----------

  predicate IsComponent(s: string) {
    s != [] && SEPARATOR !in s && ALTERNATIVE !in s
  }

  predicate Components(cs: seq<string>) {
    forall i | 0 <= i < |cs| :: IsComponent(cs[i])
  }

  /** Components with slashes between them. */
  function Joined(cs: seq<string>): string {
    if cs == [] then []
    else if |cs| == 1 then cs[0]
    else Joined(cs[..|cs| - 1]) + [SEPARATOR] + cs[|cs| - 1]
  }

  /** A clean path, absolute or relative. */
  function Written(absolute: bool, cs: seq<string>): string {
    (if absolute then "/" else "") + Joined(cs)
  }

  /** The directory of some components, as `Dirname` writes it. */
  function DirectoryOf(absolute: bool, cs: seq<string>): string {
    if cs == [] then (if absolute then "/" else ".") else Written(absolute, cs)
  }

  function Ups(k: nat): string {
    if k == 0 then [] else "../" + Ups(k - 1)
  }

  lemma {:induction false} JoinedIsClean(cs: seq<string>)
    requires Components(cs)
    ensures ALTERNATIVE !in Joined(cs)
    ensures cs != [] ==> Joined(cs) != [] && Joined(cs)[0] != SEPARATOR && Joined(cs)[|Joined(cs)| - 1] != SEPARATOR
  {
    if |cs| > 1 {
      JoinedIsClean(cs[..|cs| - 1]);
    }
  }

  lemma {:induction false} LastIs(a: string, c: char, b: string)
    requires c !in b
    ensures LastOf(a + [c] + b, c) == Some(|a|)
    decreases |b|
  {
    var s := a + [c] + b;
    if b == [] {
      assert s == a + [c];
    } else {
      var n := |b| - 1;
      LastIs(a, c, b[..n]);
      assert s[..|s| - 1] == a + [c] + b[..n];
      assert s[|s| - 1] == b[n] && b[n] in b;
    }
  }

  lemma NowhereIs(s: string, c: char)
    requires c !in s
    ensures LastOf(s, c) == None
  {
  }

  /** The directory of a clean path is the path of its components but the last, which is its leaf. */
  lemma DirnameOfWritten(absolute: bool, cs: seq<string>)
    requires Components(cs) && cs != []
    ensures Dirname(Written(absolute, cs)) == DirectoryOf(absolute, cs[..|cs| - 1])
    ensures Leafname(Written(absolute, cs)) == cs[|cs| - 1]
  {
    var n := |cs| - 1;
    var path, leaf := Written(absolute, cs), cs[n];
    JoinedIsClean(cs);
    if n == 0 && !absolute {
      NowhereIs(path, ALTERNATIVE);
      EmptyLeft(leaf);
      NowhereIs(path, SEPARATOR);
    } else {
      LastSlash(absolute, cs);
      DirnameAt(if n == 0 then "" else Written(absolute, cs[..n]), leaf);
      if n > 0 {
        JoinedIsClean(cs[..n]);
      }
    }
  }

  lemma DirnameAt(before: string, leaf: string)
    requires SEPARATOR !in leaf && ALTERNATIVE !in before + [SEPARATOR] + leaf
    ensures Dirname(before + [SEPARATOR] + leaf) == (if before == "" then "/" else before)
    ensures Leafname(before + [SEPARATOR] + leaf) == leaf
  {
    var path := before + [SEPARATOR] + leaf;
    NowhereIs(path, ALTERNATIVE);
    LastIs(before, SEPARATOR, leaf);
    DropLeft(before + [SEPARATOR], leaf);
    assert path[..|before|] == before;
  }

  lemma LastSlash(absolute: bool, cs: seq<string>)
    requires cs != [] && (|cs| > 1 || absolute)
    ensures var n := |cs| - 1;
            Written(absolute, cs) == (if n == 0 then "" else Written(absolute, cs[..n])) + [SEPARATOR] + cs[n]
  {
    var n, root := |cs| - 1, if absolute then "/" else "";
    if n > 0 {
      Assoc(root, Joined(cs[..n]), [SEPARATOR]);
      Assoc(root, Joined(cs[..n]) + [SEPARATOR], cs[n]);
    } else {
      EmptyLeft([SEPARATOR]);
    }
  }

  lemma DirectoryUp(absolute: bool, ds: seq<string>)
    requires Components(ds)
    ensures Dirname(DirectoryOf(absolute, ds)) == DirectoryOf(absolute, if ds == [] then [] else ds[..|ds| - 1])
  {
    if ds == [] {
      assert LastOf("/", SEPARATOR) == Some(0);
      NowhereIs("/", ALTERNATIVE);
      NowhereIs(".", SEPARATOR);
    } else {
      DirnameOfWritten(absolute, ds);
    }
  }

  /** The rest of a relative path after its steps up: components that do not start with another one. */
  predicate Rest(rs: seq<string>) {
    Components(rs) && rs != [] && rs[0] != ".."
  }

  lemma {:induction false} FirstComponent(rs: seq<string>)
    requires Components(rs) && rs != []
    ensures rs[0] <= Joined(rs) && (|rs| > 1 ==> |Joined(rs)| > |rs[0]| && Joined(rs)[|rs[0]|] == SEPARATOR)
  {
    if |rs| > 1 {
      var init := rs[..|rs| - 1];
      FirstComponent(init);
      if |init| == 1 {
        assert Joined(init) == rs[0];
      }
    }
  }

  lemma RestStays(rs: seq<string>)
    requires Rest(rs)
    ensures !GoesUp(Joined(rs)) && Joined(rs) != [] && !IsAbsolute(Joined(rs))
  {
    JoinedIsClean(rs);
    FirstComponent(rs);
    var s, first := Joined(rs), rs[0];
    assert first == s[..|first|];
    if |first| > 2 {
      assert s[2] == first[2] && first[2] in first;
    } else if |first| == 2 {
      assert s[0] == first[0] && s[1] == first[1] && first == [first[0], first[1]];
    } else {
      assert |rs| > 1 ==> s[1] == SEPARATOR;
    }
  }

  lemma UpsAhead(k: nat, rest: string)
    requires k > 0 && rest != []
    ensures GoesUp(Ups(k) + rest) && (Ups(k) + rest)[3..] == Ups(k - 1) + rest && !IsAbsolute(Ups(k) + rest)
  {
    Assoc("../", Ups(k - 1), rest);
    DropLeft("../", Ups(k - 1) + rest);
    var s := Ups(k) + rest;
    assert s[..3] == "../";
    assert s[0] == s[..3][0] && s[1] == s[..3][1] && s[2] == s[..3][2];
  }

  /** A directory that does not start with the current one, written ".". */
  predicate NoDotFirst(absolute: bool, cs: seq<string>) {
    Components(cs) && (absolute || cs == [] || cs[0] != ".")
  }

  lemma NotJustADot(absolute: bool, cs: seq<string>)
    requires NoDotFirst(absolute, cs) && cs != []
    ensures Written(absolute, cs) != "."
  {
    JoinedIsClean(cs);
    EmptyLeft(Joined(cs));
    if |cs| > 1 {
      assert |Joined(cs)| > 1;
    }
  }

  /** `k` steps up from a directory, each taken by `up`, until the directory is used up. */
  function Climb(up: string -> string, dir: string, k: nat, rest: string): (string, string)
    decreases k
  {
    if k == 0 then (dir, rest)
    else if dir == "." then ([], Ups(k) + rest)
    else Climb(up, up(dir), k - 1, rest)
  }

  lemma {:induction false} ClimbedSteps(dir: string, k: nat, rest: string)
    requires rest != [] && !GoesUp(rest)
    ensures Climbed(dir, Ups(k) + rest) == Climb(Dirname, dir, k, rest)
    decreases k
  {
    if k == 0 {
      EmptyLeft(rest);
    } else {
      UpsAhead(k, rest);
      if dir != "." {
        ClimbedSteps(Dirname(dir), k - 1, rest);
      }
    }
  }

  /** Where `k` steps up lead if a directory is known by its components. */
  function ClimbedTo(dirOf: seq<string> -> string, absolute: bool, ds: seq<string>, k: nat, rest: string): (string, string) {
    if k <= |ds| then (dirOf(ds[..|ds| - k]), rest)
    else if absolute then (dirOf([]), rest)
    else ([], Ups(k - |ds|) + rest)
  }

  /** One step up takes the last component away, and stays at the root; only the empty relative directory is ".". */
  ghost predicate StepsRight(dirOf: seq<string> -> string, up: string -> string, absolute: bool, ds: seq<string>) {
    forall n: nat | n <= |ds| ::
      && (dirOf(ds[..n]) == "." <==> n == 0 && !absolute)
      && (n > 0 || absolute ==> up(dirOf(ds[..n])) == dirOf(ds[..if n == 0 then 0 else n - 1]))
  }

  lemma {:induction false} ClimbsTo(dirOf: seq<string> -> string, up: string -> string, absolute: bool, ds: seq<string>, n: nat, k: nat, rest: string)
    requires n <= |ds| && StepsRight(dirOf, up, absolute, ds)
    ensures Climb(up, dirOf(ds[..n]), k, rest) == ClimbedTo(dirOf, absolute, ds[..n], k, rest)
    decreases k
  {
    assert ds[..n][..n] == ds[..n] && ds[..0] == [];
    if k > 0 && (n > 0 || absolute) {
      var m := if n == 0 then 0 else n - 1;
      ClimbsTo(dirOf, up, absolute, ds, m, k - 1, rest);
      assert n > 0 && k <= n ==> ds[..m][..m - (k - 1)] == ds[..n][..n - k];
    }
  }

  /** As many components of the directory go as there are steps up, as far as there are any. */
  lemma ClimbedIs(absolute: bool, ds: seq<string>, k: nat, rest: string)
    requires NoDotFirst(absolute, ds) && rest != [] && !GoesUp(rest)
    ensures Climbed(DirectoryOf(absolute, ds), Ups(k) + rest) == ClimbedTo(cs => DirectoryOf(absolute, cs), absolute, ds, k, rest)
  {
    var dirOf := cs => DirectoryOf(absolute, cs);
    ClimbedSteps(DirectoryOf(absolute, ds), k, rest);
    forall n: nat | n <= |ds|
      ensures dirOf(ds[..n]) == "." <==> n == 0 && !absolute
      ensures n > 0 || absolute ==> Dirname(dirOf(ds[..n])) == dirOf(ds[..if n == 0 then 0 else n - 1])
    {
      WhenADot(absolute, ds[..n]);
      DirectoryUp(absolute, ds[..n]);
      assert n > 0 ==> ds[..n][..n - 1] == ds[..n - 1];
    }
    ClimbsTo(dirOf, Dirname, absolute, ds, |ds|, k, rest);
    assert ds[..|ds|] == ds;
  }

  lemma WhenADot(absolute: bool, ds: seq<string>)
    requires NoDotFirst(absolute, ds)
    ensures DirectoryOf(absolute, ds) == "." <==> ds == [] && !absolute
  {
    if ds != [] {
      NotJustADot(absolute, ds);
    }
  }

  lemma {:induction false} JoinedConcat(a: seq<string>, b: seq<string>)
    requires a != [] && b != []
    ensures Joined(a + b) == Joined(a) + [SEPARATOR] + Joined(b)
    decreases |b|
  {
    var n := |b| - 1;
    assert (a + b)[..|a + b| - 1] == a + b[..n];
    if n == 0 {
      assert a + b[..0] == a;
    } else {
      JoinedConcat(a, b[..n]);
      Assoc(Joined(a) + [SEPARATOR], Joined(b[..n]), [SEPARATOR]);
      Assoc(Joined(a) + [SEPARATOR], Joined(b[..n]) + [SEPARATOR], b[n]);
    }
  }

  lemma CombinedIs(absolute: bool, ds: seq<string>, rs: seq<string>)
    requires NoDotFirst(absolute, ds) && Rest(rs)
    ensures Combined(DirectoryOf(absolute, ds), Joined(rs)) == Written(absolute, ds + rs)
  {
    if ds == [] {
      assert ds + rs == rs;
      EmptyLeft(Joined(rs));
    } else {
      NotJustADot(absolute, ds);
      JoinedIsClean(ds);
      var root := if absolute then "/" else "";
      assert Written(absolute, ds)[|Written(absolute, ds)| - 1] == Joined(ds)[|Joined(ds)| - 1];
      JoinedConcat(ds, rs);
      Assoc(root, Joined(ds), [SEPARATOR]);
      Assoc(root, Joined(ds) + [SEPARATOR], Joined(rs));
    }
  }

  /** Resolving `k` steps up and some clean rest against a clean path drops `k` components from its directory: an
      absolute one stops at the root, a relative one that runs out keeps the steps it could not take. */
  lemma ResolvedIs(absolute: bool, cs: seq<string>, k: nat, rs: seq<string>)
    requires Components(cs) && cs != [] && NoDotFirst(absolute, cs[..|cs| - 1]) && Rest(rs)
    ensures var ds := cs[..|cs| - 1];
            Resolved(Written(absolute, cs), Ups(k) + Joined(rs)) ==
            if k <= |ds| then Written(absolute, ds[..|ds| - k] + rs)
            else if absolute then Written(true, rs)
            else Ups(k - |ds|) + Joined(rs)
  {
    var n := |cs| - 1;
    if k <= n {
      ResolvedWithin(absolute, cs, k, rs, cs[..n][..n - k]);
    } else if absolute {
      ResolvedAtRoot(cs, k, rs);
    } else {
      ResolvedBeyond(cs, k, rs, k - n);
    }
  }

  lemma ResolvedWithin(absolute: bool, cs: seq<string>, k: nat, rs: seq<string>, front: seq<string>)
    requires Components(cs) && k <= |cs| - 1 && front == cs[..|cs| - 1][..|cs| - 1 - k]
    requires NoDotFirst(absolute, cs[..|cs| - 1]) && Rest(rs)
    ensures Resolved(Written(absolute, cs), Ups(k) + Joined(rs)) == Written(absolute, front + rs)
  {
    RestStays(rs);
    ResolvedClimbs(absolute, cs, k, Joined(rs));
    CombinedIs(absolute, front, rs);
  }

  lemma ResolvedAtRoot(cs: seq<string>, k: nat, rs: seq<string>)
    requires Components(cs) && cs != [] && k > |cs| - 1 && Rest(rs)
    ensures Resolved(Written(true, cs), Ups(k) + Joined(rs)) == Written(true, rs)
  {
    RestStays(rs);
    ResolvedClimbs(true, cs, k, Joined(rs));
    CombinedIs(true, [], rs);
    EmptyLeft(rs);
  }

  lemma ResolvedBeyond(cs: seq<string>, k: nat, rs: seq<string>, j: nat)
    requires Components(cs) && cs != [] && j > 0 && k == j + |cs| - 1 && NoDotFirst(false, cs[..|cs| - 1]) && Rest(rs)
    ensures Resolved(Written(false, cs), Ups(k) + Joined(rs)) == Ups(j) + Joined(rs)
  {
    RestStays(rs);
    ResolvedClimbs(false, cs, k, Joined(rs));
  }

  lemma ResolvedClimbs(absolute: bool, cs: seq<string>, k: nat, rest: string)
    requires Components(cs) && cs != [] && NoDotFirst(absolute, cs[..|cs| - 1])
    requires rest != [] && !GoesUp(rest) && !IsAbsolute(rest)
    ensures var ds := cs[..|cs| - 1];
            Resolved(Written(absolute, cs), Ups(k) + rest) ==
            if k <= |ds| then Combined(DirectoryOf(absolute, ds[..|ds| - k]), rest)
            else if absolute then Combined("/", rest)
            else Ups(k - |ds|) + rest
  {
    var ds := cs[..|cs| - 1];
    DirnameOfWritten(absolute, cs);
    ClimbedIs(absolute, ds, k, rest);
    NotAbsolute(k, rest);
    EmptyLeft(Ups(if k <= |ds| then 0 else k - |ds|) + rest);
  }

  // From a directory that starts with the current one, written ".": the same, except that the dot goes with the last
  // component.

  lemma FromDotWithin(cs: seq<string>, k: nat, rs: seq<string>, front: seq<string>)
    requires Components(cs) && Rest(rs) && k < |cs| - 1 && front == cs[..|cs| - 1][..|cs| - 1 - k]
    ensures Resolved(Written(false, ["."] + cs), Ups(k) + Joined(rs)) == Written(false, ["."] + front + rs)
  {
    RestStays(rs);
    DotClimbs(cs, k, Joined(rs));
    CombinedFromDot(front, rs);
  }

  lemma FromDotToDot(cs: seq<string>, k: nat, rs: seq<string>)
    requires Components(cs) && k == |cs| - 1 && Rest(rs)
    ensures Resolved(Written(false, ["."] + cs), Ups(k) + Joined(rs)) == Joined(rs)
  {
    RestStays(rs);
    DotClimbs(cs, k, Joined(rs));
    var front := cs[..k][..k - k];
    assert front == [];
    CombinedFromDot(front, rs);
  }

  lemma FromDotBeyond(cs: seq<string>, k: nat, rs: seq<string>, j: nat)
    requires Components(cs) && cs != [] && j > 0 && k == j + |cs| - 1 && Rest(rs)
    ensures Resolved(Written(false, ["."] + cs), Ups(k) + Joined(rs)) == Ups(j) + Joined(rs)
  {
    RestStays(rs);
    DotClimbs(cs, k, Joined(rs));
  }

  lemma DotClimbs(cs: seq<string>, k: nat, rest: string)
    requires Components(cs) && cs != [] && rest != [] && !GoesUp(rest) && !IsAbsolute(rest)
    ensures var ds := cs[..|cs| - 1];
            Resolved(Written(false, ["."] + cs), Ups(k) + rest) ==
            if k <= |ds| then Combined(DirectoryFromDot(ds[..|ds| - k]), rest) else Ups(k - |ds|) + rest
  {
    var ds := cs[..|cs| - 1];
    assert (["."] + cs)[..|["."] + cs| - 1] == ["."] + ds;
    DirnameOfWritten(false, ["."] + cs);
    NotAbsolute(k, rest);
    ClimbedFromDot(ds, k, rest);
    EmptyLeft(Ups(if k <= |ds| then 0 else k - |ds|) + rest);
  }

  lemma CombinedFromDot(front: seq<string>, rs: seq<string>)
    requires Components(front) && Rest(rs)
    ensures Combined(DirectoryFromDot(front), Joined(rs)) ==
            if front == [] then Joined(rs) else Written(false, ["."] + front + rs)
  {
    var left := ["."] + front;
    if front == [] {
      assert left == ["."];
      EmptyLeft(".");
    } else {
      NotOnlyADot(left);
      JoinedIsClean(left);
      JoinedConcat(left, rs);
      EmptyLeft(Joined(left + rs));
    }
  }

  lemma NotOnlyADot(cs: seq<string>)
    requires Components(cs) && |cs| > 1
    ensures Written(false, cs) == Joined(cs) != "."
  {
    JoinedIsClean(cs[..|cs| - 1]);
    EmptyLeft(Joined(cs));
    assert |Joined(cs)| > 1;
  }

  function DirectoryFromDot(cs: seq<string>): string {
    DirectoryOf(false, ["."] + cs)
  }

  lemma StepFromDot(cs: seq<string>)
    requires Components(cs)
    ensures DirectoryFromDot(cs) == "." <==> cs == []
    ensures cs != [] ==> Dirname(DirectoryFromDot(cs)) == DirectoryFromDot(cs[..|cs| - 1])
  {
    var all := ["."] + cs;
    if cs == [] {
      assert all == ["."];
      EmptyLeft(".");
    } else {
      NotOnlyADot(all);
      DirectoryUp(false, all);
      assert all[..|all| - 1] == ["."] + cs[..|cs| - 1];
    }
  }

  lemma StepsFromDot(ds: seq<string>)
    requires Components(ds)
    ensures StepsRight(DirectoryFromDot, Dirname, false, ds)
  {
    forall n: nat | n <= |ds|
      ensures DirectoryFromDot(ds[..n]) == "." <==> n == 0
      ensures n > 0 ==> Dirname(DirectoryFromDot(ds[..n])) == DirectoryFromDot(ds[..n - 1])
    {
      StepFromDot(ds[..n]);
      assert n > 0 ==> ds[..n][..n - 1] == ds[..n - 1];
    }
  }

  lemma ClimbedFromDot(ds: seq<string>, k: nat, rest: string)
    requires Components(ds) && rest != [] && !GoesUp(rest)
    ensures Climbed(DirectoryOf(false, ["."] + ds), Ups(k) + rest) == ClimbedTo(DirectoryFromDot, false, ds, k, rest)
  {
    ClimbedSteps(DirectoryFromDot(ds), k, rest);
    StepsFromDot(ds);
    ClimbsTo(DirectoryFromDot, Dirname, false, ds, |ds|, k, rest);
    assert ds[..|ds|] == ds;
  }

  lemma NotAbsolute(k: nat, rest: string)
    requires rest != [] && !IsAbsolute(rest)
    ensures !IsAbsolute(Ups(k) + rest)
  {
    if k == 0 {
      EmptyLeft(rest);
    } else {
      UpsAhead(k, rest);
    }
  }
}
