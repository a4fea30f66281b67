/**
 * POSIX paths as `pathlib` sees them once a path is resolved: an absolute
 * path is the sequence of its segments below "/", so `[]` is "/" itself and
 * `["srv", "node_project"]` is "/srv/node_project".
 *
 * A candidate string is cut at every '/', joined to a root unless it is
 * absolute, and normalised lexically: empty and "." segments vanish, ".."
 * drops the last segment and stays put at "/".
 */
module Paths {

  type Path = seq<string>

  /** A segment that can name a directory entry. */
  predicate IsName(s: string) {
    s != "" && s != "." && s != ".." && '/' !in s
  }

  /** A resolved path: every segment is a name. */
  predicate Canonical(p: Path) {
    forall i :: 0 <= i < |p| ==> IsName(p[i])
  }

  predicate NoSlash(parts: seq<string>) {
    forall i :: 0 <= i < |parts| ==> '/' !in parts[i]
  }

  predicate IsPrefix(a: Path, b: Path) {
    |a| <= |b| && b[..|a|] == a
  }

  /** `a` is a proper ancestor of `b`. */
  predicate IsStrictPrefix(a: Path, b: Path) {
    |a| < |b| && b[..|a|] == a
  }

  // ---------------------------------------------------------------------------
  // Cutting a string at '/' and gluing it back
  // ---------------------------------------------------------------------------

  /**
   * The pieces of `s` between separators, the first one prefixed with
   * `piece`, the text already read since the last separator.
   */
  function SplitFrom(piece: string, s: string): (parts: seq<string>)
    requires '/' !in piece
    ensures |parts| >= 1
    ensures NoSlash(parts)
    decreases |s|
  {
    if s == [] then [piece]
    else if s[0] == '/' then [piece] + SplitFrom("", s[1..])
    else SplitFrom(piece + [s[0]], s[1..])
  }

  /** The pieces of `s` between separators; "a//b" gives ["a", "", "b"]. */
  function Split(s: string): (parts: seq<string>)
    ensures |parts| >= 1 && NoSlash(parts)
  {
    SplitFrom("", s)
  }

  /** The pieces separated by '/', as `str()` renders a relative path. */
  function Join(parts: seq<string>): string
    requires |parts| >= 1
    decreases |parts|
  {
    if |parts| == 1 then parts[0] else parts[0] + "/" + Join(parts[1..])
  }

  /** Text without separators only grows the current piece. */
  lemma {:induction false} SplitFromName(piece: string, a: string, t: string)
    requires '/' !in piece && '/' !in a
    ensures SplitFrom(piece, a + t) == SplitFrom(piece + a, t)
    decreases |a|
  {
    if a == [] {
      assert a + t == t && piece + a == piece;
    } else {
      var s := a + t;
      assert s[0] == a[0] && s[1..] == a[1..] + t;
      SplitFromName(piece + [a[0]], a[1..], t);
      assert piece + [a[0]] + a[1..] == piece + a;
    }
  }

  /** A separator after a name cuts it off as the first piece. */
  lemma SplitAtSeparator(a: string, b: string)
    requires '/' !in a
    ensures Split(a + "/" + b) == [a] + Split(b)
  {
    SplitFromName("", a, "/" + b);
    assert a + "/" + b == a + ("/" + b);
    var s := "/" + b;
    assert s[0] == '/' && s[1..] == b;
    assert "" + a == a;
  }

  /** A string without separators is a single piece. */
  lemma SplitName(a: string)
    requires '/' !in a
    ensures Split(a) == [a]
  {
    SplitFromName("", a, "");
    assert a + "" == a && "" + a == a;
  }

  /** Splitting undoes joining pieces that hold no separator. */
  lemma {:induction false} SplitJoin(parts: seq<string>)
    requires |parts| >= 1 && NoSlash(parts)
    ensures Split(Join(parts)) == parts
    decreases |parts|
  {
    if |parts| == 1 {
      SplitName(parts[0]);
    } else {
      SplitAtSeparator(parts[0], Join(parts[1..]));
      SplitJoin(parts[1..]);
      assert parts == [parts[0]] + parts[1..];
    }
  }

  /** A first piece in front of others is glued on with one separator. */
  lemma JoinCons(piece: string, rest: seq<string>)
    requires |rest| >= 1
    ensures Join([piece] + rest) == piece + "/" + Join(rest)
  {
    var parts := [piece] + rest;
    assert parts[0] == piece && parts[1..] == rest;
  }

  /** One rewrite step of `JoinSplitFrom`, kept separate so the solver stays fast. */
  lemma AppendFirst(a: string, s: string)
    requires s != []
    ensures a + [s[0]] + s[1..] == a + s
  {
    assert s == [s[0]] + s[1..];
  }

  /** The separator step of `JoinSplitFrom`, kept separate so the solver stays fast. */
  lemma AppendSeparator(a: string, s: string)
    requires s != [] && s[0] == '/'
    ensures a + "/" + ("" + s[1..]) == a + s
  {
    assert s == "/" + s[1..];
  }

  lemma {:induction false} JoinSplitFrom(piece: string, s: string)
    requires '/' !in piece
    ensures Join(SplitFrom(piece, s)) == piece + s
    decreases |s|
  {
    if s == [] {
      assert piece + s == piece;
    } else if s[0] == '/' {
      JoinSplitFrom("", s[1..]);
      JoinCons(piece, SplitFrom("", s[1..]));
      AppendSeparator(piece, s);
    } else {
      JoinSplitFrom(piece + [s[0]], s[1..]);
      AppendFirst(piece, s);
    }
  }

  /** Joining the pieces gives back the string that was split. */
  lemma JoinSplit(s: string)
    ensures Join(Split(s)) == s
  {
    JoinSplitFrom("", s);
    assert "" + s == s;
  }

  /** Different piece lists render as different strings. */
  lemma JoinInjective(a: seq<string>, b: seq<string>)
    requires |a| >= 1 && |b| >= 1 && NoSlash(a) && NoSlash(b)
    requires Join(a) == Join(b)
    ensures a == b
  {
    SplitJoin(a);
    SplitJoin(b);
  }

  // ---------------------------------------------------------------------------
  // Resolution
  // ---------------------------------------------------------------------------

  /** One segment applied to `cur`. */
  function Step(cur: Path, seg: string): Path {
    if seg == "" || seg == "." then cur
    else if seg == ".." then (if cur == [] then [] else cur[..|cur| - 1])
    else cur + [seg]
  }

  /** Apply the segments `parts` one at a time, starting at `cur`. */
  function Normalize(cur: Path, parts: seq<string>): Path
    decreases |parts|
  {
    if parts == [] then cur else Normalize(Step(cur, parts[0]), parts[1..])
  }

  predicate IsAbsolute(candidate: string) {
    |candidate| > 0 && candidate[0] == '/'
  }

  /**
   * `(root / candidate).resolve()`: an absolute candidate replaces the root;
   * symbolic links are not followed.
   */
  function Resolve(root: Path, candidate: string): Path {
    Normalize(if IsAbsolute(candidate) then [] else root, Split(candidate))
  }

  lemma {:induction false} NormalizeCanonical(cur: Path, parts: seq<string>)
    requires Canonical(cur) && NoSlash(parts)
    ensures Canonical(Normalize(cur, parts))
    decreases |parts|
  {
    if parts != [] {
      assert Canonical(Step(cur, parts[0]));
      NormalizeCanonical(Step(cur, parts[0]), parts[1..]);
    }
  }

  /** Every resolved path is canonical, whatever the candidate holds. */
  lemma ResolveCanonical(root: Path, candidate: string)
    requires Canonical(root)
    ensures Canonical(Resolve(root, candidate))
  {
    NormalizeCanonical(if IsAbsolute(candidate) then [] else root, Split(candidate));
  }

  lemma {:induction false} NormalizeNames(cur: Path, parts: seq<string>)
    requires forall i :: 0 <= i < |parts| ==> IsName(parts[i])
    ensures Normalize(cur, parts) == cur + parts
    decreases |parts|
  {
    if parts != [] {
      NormalizeNames(cur + [parts[0]], parts[1..]);
      assert cur + [parts[0]] + parts[1..] == cur + parts;
    }
  }

  /** A relative path made of names, rendered with '/', resolves to that path below the root. */
  lemma ResolveRelativeNames(root: Path, rel: Path)
    requires |rel| >= 1 && Canonical(rel)
    ensures Resolve(root, Join(rel)) == root + rel
  {
    SplitJoin(rel);
    NormalizeNames(root, rel);
  }

  lemma {:induction false} NormalizeNoDotDot(root: Path, cur: Path, parts: seq<string>)
    requires IsPrefix(root, cur)
    requires forall i :: 0 <= i < |parts| ==> parts[i] != ".."
    ensures IsPrefix(root, Normalize(cur, parts))
    decreases |parts|
  {
    if parts != [] {
      var next := Step(cur, parts[0]);
      assert next[..|root|] == root;
      NormalizeNoDotDot(root, next, parts[1..]);
    }
  }

  /** Without a ".." segment a relative candidate cannot climb out of its root. */
  lemma ResolveWithoutDotDot(root: Path, candidate: string)
    requires !IsAbsolute(candidate)
    requires forall i :: 0 <= i < |Split(candidate)| ==> Split(candidate)[i] != ".."
    ensures IsPrefix(root, Resolve(root, candidate))
  {
    NormalizeNoDotDot(root, root, Split(candidate));
  }

  /** An absolute candidate resolves the same way against every root. */
  lemma ResolveAbsolute(root1: Path, root2: Path, candidate: string)
    requires IsAbsolute(candidate)
    ensures Resolve(root1, candidate) == Resolve(root2, candidate)
  {
  }

  /** "../" written `k` times. */
  function UpLevels(k: nat): string {
    if k == 0 then "" else "../" + UpLevels(k - 1)
  }

  /** One "../" peeled off, a step of `SplitUpLevels` kept separate so the solver stays fast. */
  lemma UpLevelsStep(k: nat, t: string)
    requires k > 0
    ensures UpLevels(k) + t == ".." + "/" + (UpLevels(k - 1) + t)
  {
    assert UpLevels(k) == "../" + UpLevels(k - 1);
  }

  /** One ".." peeled off the segment list, a step of `SplitUpLevels`. */
  lemma DotDotsStep(k: nat)
    requires k > 0
    ensures seq(k, _ => "..") == [".."] + seq(k - 1, _ => "..")
  {
  }

  lemma {:induction false} SplitUpLevels(k: nat, t: string)
    ensures Split(UpLevels(k) + t) == seq(k, _ => "..") + Split(t)
  {
    if k == 0 {
      assert UpLevels(k) + t == t;
    } else {
      var rest := UpLevels(k - 1) + t;
      UpLevelsStep(k, t);
      SplitAtSeparator("..", rest);
      SplitUpLevels(k - 1, t);
      DotDotsStep(k);
    }
  }

  lemma {:induction false} NormalizeUp(cur: Path, k: nat, tail: seq<string>)
    requires k <= |cur|
    ensures Normalize(cur, seq(k, _ => "..") + tail) == Normalize(cur[..|cur| - k], tail)
  {
    var parts := seq(k, _ => "..") + tail;
    if k == 0 {
      assert parts == tail && cur[..|cur|] == cur;
    } else {
      assert parts[0] == ".." && parts[1..] == seq(k - 1, _ => "..") + tail;
      var up := cur[..|cur| - 1];
      assert Step(cur, parts[0]) == up;
      NormalizeUp(up, k - 1, tail);
      assert up[..|up| - (k - 1)] == cur[..|cur| - k];
    }
  }

  /**
   * Climbing `k` levels with "../" and coming back down through at most `k`
   * names never lands strictly below the root: "../../etc/passwd" seen from
   * a root two or more levels deep is the typical case.
   */
  lemma ResolveClimbOut(root: Path, k: nat, names: Path)
    requires 1 <= |names| <= k <= |root| && Canonical(names)
    ensures Resolve(root, UpLevels(k) + Join(names)) == root[..|root| - k] + names
    ensures !IsStrictPrefix(root, Resolve(root, UpLevels(k) + Join(names)))
  {
    var c := UpLevels(k) + Join(names);
    SplitUpLevels(k, Join(names));
    SplitJoin(names);
    assert !IsAbsolute(c) by {
      if k > 0 { assert c[0] == '.'; }
    }
    NormalizeUp(root, k, names);
    NormalizeNames(root[..|root| - k], names);
  }

  // ---------------------------------------------------------------------------
  // `path.parents`
  // ---------------------------------------------------------------------------

  /** The ancestors of `p`, nearest first, ending with "/"; "/" has none. */
  function Parents(p: Path): seq<Path>
    decreases |p|
  {
    if p == [] then [] else [p[..|p| - 1]] + Parents(p[..|p| - 1])
  }

  /** `root in path.parents` holds exactly when `root` is a proper ancestor of `path`. */
  lemma {:induction false} ParentsAreStrictPrefixes(root: Path, p: Path)
    ensures root in Parents(p) <==> IsStrictPrefix(root, p)
    decreases |p|
  {
    if p != [] {
      var up := p[..|p| - 1];
      ParentsAreStrictPrefixes(root, up);
      assert Parents(p) == [up] + Parents(up);
      if IsStrictPrefix(root, p) && root != up {
        assert |root| < |up| && up[..|root|] == root;
      }
      if root in Parents(up) {
        assert up[..|root|] == p[..|root|];
      }
    }
  }
}
