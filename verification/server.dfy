/**
 * The file tools of the mcp-demo server: a path guard that keeps every read
 * and write inside one of two roots, the log directory and the Node project
 * directory, and the reads, the listings and the full-content overwrite that
 * it gates.
 *
 * The filesystem is a map from absolute paths to nodes. A file node holds the
 * text last written to it; its size on disk is the length of that text in
 * UTF-8, and reading it back applies universal-newline translation.
 */
module Server {
  import opened Wrappers
  import opened Paths
  import opened Utf8
  import opened Text

  datatype Node = Dir | File(text: string)

  type Tree = map<Path, Node>

  const LogAccessError := "Invalid or unauthorized log file access"
  const ProjectAccessError := "Invalid or unauthorized project file access"
  const FixErrorPrefix := "Unauthorized or missing file: "

  /** Names that hide a project entry from the listing wherever they occur in its path. */
  const Exclude: set<string> := {"node_modules", "logs", ".git", ".env", "pnpm-lock.yaml"}

  /** Every path in the tree is resolved: its segments are plain names. */
  ghost predicate WellFormed(nodes: Tree) {
    forall p :: p in nodes ==> Canonical(p)
  }

  predicate IsFile(nodes: Tree, p: Path) {
    p in nodes && nodes[p].File?
  }

  predicate IsDir(nodes: Tree, p: Path) {
    p in nodes && nodes[p].Dir?
  }

  // ---------------------------------------------------------------------------
  // The guard and the reads it gates
  // ---------------------------------------------------------------------------

  /**
   * `path = (root / candidate).resolve()`, accepted only when
   * `path.is_file()` and `root in path.parents`.
   */
  function Authorize(nodes: Tree, root: Path, candidate: string): (r: Option<Path>)
    ensures r.Some? <==>
      IsFile(nodes, Resolve(root, candidate)) && IsStrictPrefix(root, Resolve(root, candidate))
    ensures r.Some? ==> r.value == Resolve(root, candidate)
  {
    var path := Resolve(root, candidate);
    ParentsAreStrictPrefixes(root, path);
    if !IsFile(nodes, path) || root !in Parents(path) then None else Some(path)
  }

  /**
   * The guard followed by `path.read_text(...)`; a refused candidate raises
   * `ValueError(error)`.
   */
  function GuardedRead(nodes: Tree, root: Path, candidate: string, error: string): (r: Result<string>)
    ensures r.Ok? <==>
      IsFile(nodes, Resolve(root, candidate)) && IsStrictPrefix(root, Resolve(root, candidate))
    ensures r.Ok? ==> r.value == UniversalNewlines(nodes[Resolve(root, candidate)].text)
    ensures r.Err? ==> r.message == error
  {
    match Authorize(nodes, root, candidate)
    case None => Err(error)
    case Some(path) => Ok(UniversalNewlines(nodes[path].text))
  }

  /** A plain relative name is read from the entry of that name directly inside the root. */
  lemma GuardedReadEntry(nodes: Tree, root: Path, name: string, error: string)
    requires IsName(name)
    ensures Resolve(root, name) == root + [name]
    ensures GuardedRead(nodes, root, name, error).Ok? <==> IsFile(nodes, root + [name])
  {
    ResolveRelativeNames(root, [name]);
    assert (root + [name])[..|root|] == root;
  }

  /**
   * Climbing out with k ".." segments and naming at most k entries is
   * refused; `read_log_file("../../etc/passwd")` is the case k = 2.
   */
  lemma GuardedReadClimbOut(nodes: Tree, root: Path, k: nat, names: Path, error: string)
    requires 1 <= |names| <= k <= |root| && Canonical(names)
    ensures GuardedRead(nodes, root, UpLevels(k) + Join(names), error) == Err(error)
  {
    ResolveClimbOut(root, k, names);
  }

  // ---------------------------------------------------------------------------
  // Listings
  // ---------------------------------------------------------------------------

  /** `p.parts` of an absolute path: "/" followed by its segments. */
  function AbsoluteParts(p: Path): seq<string> {
    ["/"] + p
  }

  /** `any(part in exclude for part in p.parts)`. */
  predicate HasExcludedPart(p: Path) {
    exists i | 0 <= i < |AbsoluteParts(p)| :: AbsoluteParts(p)[i] in Exclude
  }

  /** `p.is_file()` for an entry `p` of `root.rglob("*")` that the exclusion test keeps. */
  predicate IsListed(nodes: Tree, root: Path, p: Path) {
    IsStrictPrefix(root, p) && IsFile(nodes, p) && !HasExcludedPart(p)
  }

  /** `str(p.relative_to(root))`. */
  function RelativeName(root: Path, p: Path): string
    requires IsStrictPrefix(root, p)
  {
    Join(p[|root|..])
  }

  /** The relative names of the listed entries among `paths`. */
  function NamesOf(nodes: Tree, root: Path, paths: set<Path>): set<string> {
    set p | p in paths && IsListed(nodes, root, p) :: RelativeName(root, p)
  }

  /** The names `list_project_files` reports, in no particular order. */
  function ListedNames(nodes: Tree, root: Path): set<string> {
    NamesOf(nodes, root, nodes.Keys)
  }

  predicate EndsWithLog(name: string) {
    |name| >= 4 && name[|name| - 4..] == ".log"
  }

  /** `[f.name for f in log_dir.glob("*.log")]`, in no particular order. */
  function LogNames(nodes: Tree, logDir: Path): set<string> {
    set p | p in nodes && |p| == |logDir| + 1 && p[..|logDir|] == logDir && EndsWithLog(p[|logDir|])
      :: p[|logDir|]
  }

  /** Descendants of a root render as distinct relative names. */
  lemma RelativeNameInjective(root: Path, p: Path, q: Path)
    requires IsStrictPrefix(root, p) && IsStrictPrefix(root, q) && Canonical(p) && Canonical(q)
    requires RelativeName(root, p) == RelativeName(root, q)
    ensures p == q
  {
    var a, b := p[|root|..], q[|root|..];
    assert NoSlash(a) && NoSlash(b);
    JoinInjective(a, b);
    assert p == root + a && q == root + b;
  }

  /** `list_available_logs` reports exactly the bare `*.log` names directly inside the log directory. */
  lemma LogNamesExact(nodes: Tree, logDir: Path, name: string)
    requires WellFormed(nodes)
    ensures name in LogNames(nodes, logDir) <==> logDir + [name] in nodes && EndsWithLog(name)
    ensures name in LogNames(nodes, logDir) ==> IsName(name)
  {
    var p := logDir + [name];
    if p in nodes && EndsWithLog(name) {
      assert p[..|logDir|] == logDir && p[|logDir|] == name;
    }
    if name in LogNames(nodes, logDir) {
      var q :| q in nodes && |q| == |logDir| + 1 && q[..|logDir|] == logDir && q[|logDir|] == name;
      assert q == p;
      assert Canonical(q);
      assert IsName(q[|logDir|]);
    }
  }

  /**
   * Every name `list_project_files` reports is accepted by
   * `read_project_file`, which reads the file it was listed for.
   */
  lemma ListedNamesReadable(nodes: Tree, root: Path, name: string, error: string)
    requires WellFormed(nodes)
    requires name in ListedNames(nodes, root)
    ensures GuardedRead(nodes, root, name, error).Ok?
    ensures !HasExcludedPart(Resolve(root, name))
  {
    var p :| p in nodes && IsListed(nodes, root, p) && name == RelativeName(root, p);
    var rel := p[|root|..];
    assert Canonical(rel) by {
      assert Canonical(p);
      forall i | 0 <= i < |rel| ensures IsName(rel[i]) {
        assert rel[i] == p[|root| + i];
      }
    }
    ResolveRelativeNames(root, rel);
    assert root + rel == p;
  }

  /** No reported name has an excluded name as one of its segments. */
  lemma ListedNamesAvoidExcluded(nodes: Tree, root: Path, name: string)
    requires WellFormed(nodes)
    requires name in ListedNames(nodes, root)
    ensures forall i :: 0 <= i < |Split(name)| ==> Split(name)[i] !in Exclude
  {
    var p :| p in nodes && IsListed(nodes, root, p) && name == RelativeName(root, p);
    var rel := p[|root|..];
    assert NoSlash(rel) by {
      assert Canonical(p);
      forall i | 0 <= i < |rel| ensures '/' !in rel[i] {
        assert rel[i] == p[|root| + i];
      }
    }
    SplitJoin(rel);
    assert Split(name) == rel;
    forall i | 0 <= i < |rel| ensures rel[i] !in Exclude {
      var j := 1 + |root| + i;
      assert AbsoluteParts(p)[j] == rel[i];
    }
  }

  /**
   * The exclusion test looks at the absolute path, so a project root whose
   * own path passes through an excluded name lists nothing at all.
   */
  lemma ExcludedRootListsNothing(nodes: Tree, root: Path)
    requires HasExcludedPart(root)
    ensures ListedNames(nodes, root) == {}
  {
    var i :| 0 <= i < |AbsoluteParts(root)| && AbsoluteParts(root)[i] in Exclude;
    forall p | p in nodes && IsStrictPrefix(root, p) ensures HasExcludedPart(p) {
      assert AbsoluteParts(p)[i] == AbsoluteParts(root)[i];
    }
  }

  /** Nothing inside the project's `logs` directory is ever listed. */
  lemma LogsNeverListed(nodes: Tree, root: Path, p: Path)
    requires IsPrefix(root + ["logs"], p)
    ensures !IsListed(nodes, root, p)
  {
    assert AbsoluteParts(p)[1 + |root|] == (root + ["logs"])[|root|];
  }

  // ---------------------------------------------------------------------------
  // The overwrite
  // ---------------------------------------------------------------------------

  /** The first two lines and the start of the third of `apply_fix`'s confirmation. */
  function FixHeader(filepath: string, reason: string): string {
    "Fix applied to " + filepath + "\nReason: " + reason + "\nSize change: "
  }

  /** The confirmation `apply_fix` returns. */
  function FixMessage(filepath: string, reason: string, oldSize: nat, newSize: nat): string {
    FixHeader(filepath, reason) + SizeChange(oldSize, newSize)
  }

  /** `t` occurs in `s` at position `i`. */
  predicate OccursAt(s: string, t: string, i: nat) {
    i + |t| <= |s| && s[i..i + |t|] == t
  }

  /** The confirmation names the file and the reason, and reports "old -> new" sizes. */
  lemma FixMessageReports(filepath: string, reason: string, oldSize: nat, newSize: nat)
    ensures var m := FixMessage(filepath, reason, oldSize, newSize);
      && OccursAt(m, filepath, 15)
      && OccursAt(m, reason, 15 + |filepath| + 9)
      && OccursAt(m, Decimal(oldSize) + " -> " + Decimal(newSize), 15 + |filepath| + 9 + |reason| + 14)
  {
    var sizes := Decimal(oldSize) + " -> " + Decimal(newSize);
    assert SizeChange(oldSize, newSize) == sizes + " bytes.";
    var m := FixMessage(filepath, reason, oldSize, newSize);
    assert m == "Fix applied to " + filepath + "\nReason: " + reason + "\nSize change: " + sizes + " bytes.";
  }

  /** A run of digits ends where the first non-digit begins. */
  lemma DigitsThenNonDigit(x: string, y: string, s: string, t: string)
    requires forall i :: 0 <= i < |x| ==> IsDigit(x[i])
    requires forall i :: 0 <= i < |y| ==> IsDigit(y[i])
    requires |s| > 0 && |t| > 0 && !IsDigit(s[0]) && !IsDigit(t[0])
    requires x + s == y + t
    ensures x == y && s == t
  {
    var z := x + s;
    assert !IsDigit(z[|x|]) && !IsDigit(z[|y|]);
    assert forall i :: 0 <= i < |x| ==> IsDigit(z[i]);
    assert forall i :: 0 <= i < |y| ==> IsDigit(z[i]);
    assert x == (x + s)[..|x|] && y == (y + t)[..|y|];
    assert s == (x + s)[|x|..] && t == (y + t)[|y|..];
  }

  /** The last line's sizes, "old -> new bytes.". */
  function SizeChange(oldSize: nat, newSize: nat): string {
    Decimal(oldSize) + (" -> " + (Decimal(newSize) + " bytes."))
  }

  /** Both sizes can be read back from the size report. */
  lemma SizeChangeInjective(a: nat, b: nat, c: nat, d: nat)
    requires SizeChange(a, b) == SizeChange(c, d)
    ensures a == c && b == d
  {
    var s1 := " -> " + (Decimal(b) + " bytes.");
    var s2 := " -> " + (Decimal(d) + " bytes.");
    assert s1[0] == ' ' && s2[0] == ' ';
    DigitsThenNonDigit(Decimal(a), Decimal(c), s1, s2);
    assert Decimal(b) + " bytes." == s1[4..];
    assert Decimal(d) + " bytes." == s2[4..];
    var tail := " bytes.";
    assert tail[0] == ' ';
    DigitsThenNonDigit(Decimal(b), Decimal(d), tail, tail);
    DecimalInjective(a, c);
    DecimalInjective(b, d);
  }

  /** The confirmation determines both sizes: different sizes give different messages. */
  lemma FixMessageDeterminesSizes(filepath: string, reason: string, a: nat, b: nat, c: nat, d: nat)
    requires FixMessage(filepath, reason, a, b) == FixMessage(filepath, reason, c, d)
    ensures a == c && b == d
  {
    var head := FixHeader(filepath, reason);
    assert SizeChange(a, b) == (head + SizeChange(a, b))[|head|..];
    assert SizeChange(c, d) == (head + SizeChange(c, d))[|head|..];
    SizeChangeInjective(a, b, c, d);
  }

  /** Replacing one file's text keeps the tree well formed. */
  lemma OverwriteWellFormed(nodes: Tree, p: Path, text: string)
    requires WellFormed(nodes) && IsFile(nodes, p)
    ensures WellFormed(nodes[p := File(text)])
  {
    var after := nodes[p := File(text)];
    assert after.Keys == nodes.Keys;
  }

  /**
   * Round trip: after the guard accepts a candidate and its file is
   * overwritten with `text`, reading the same candidate gives `text` back,
   * newline-translated, and exactly `text` when it holds no carriage return.
   */
  lemma OverwriteThenRead(nodes: Tree, root: Path, candidate: string, text: string, error: string)
    requires Authorize(nodes, root, candidate).Some?
    ensures var after := nodes[Resolve(root, candidate) := File(text)];
      GuardedRead(after, root, candidate, error) == Ok(UniversalNewlines(text))
    ensures var after := nodes[Resolve(root, candidate) := File(text)];
      GuardedRead(after, root, candidate, error) == Ok(text) <==> '\r' !in text
  {
    UniversalNewlinesIdentity(text);
  }

  // ---------------------------------------------------------------------------
  // The server's state and tools
  // ---------------------------------------------------------------------------

  class Workspace {
    /** The filesystem, updated in place by `ApplyFix`. */
    var nodes: Tree
    /** `NODE_PROJECT_ROOT`, resolved. */
    const projectRoot: Path
    /** `LOG_DIR`, the project's `logs` directory. */
    const logDir: Path

    ghost predicate Valid()
      reads this
    {
      && WellFormed(nodes)
      && Canonical(projectRoot)
      && logDir == projectRoot + ["logs"]
      && IsDir(nodes, projectRoot)
      && IsDir(nodes, logDir)
    }

    constructor (root: Path, initial: Tree)
      requires WellFormed(initial) && Canonical(root)
      requires IsDir(initial, root) && IsDir(initial, root + ["logs"])
      ensures Valid()
      ensures nodes == initial && projectRoot == root && logDir == root + ["logs"]
    {
      nodes := initial;
      projectRoot := root;
      logDir := root + ["logs"];
    }

    /** `get_error_log`: the log directory's `error.log`, or `ValueError`. */
    function GetErrorLog(): (r: Result<string>)
      reads this
      ensures r == ReadLogFile("error.log")
      ensures r.Ok? <==> IsFile(nodes, logDir + ["error.log"])
    {
      GuardedReadEntry(nodes, logDir, "error.log", LogAccessError);
      GuardedRead(nodes, logDir, "error.log", LogAccessError)
    }

    /** `read_log_file`. */
    function ReadLogFile(filename: string): (r: Result<string>)
      reads this
      ensures r.Ok? <==>
        IsFile(nodes, Resolve(logDir, filename)) && IsStrictPrefix(logDir, Resolve(logDir, filename))
      ensures r.Ok? ==> r.value == UniversalNewlines(nodes[Resolve(logDir, filename)].text)
      ensures r.Err? ==> r.message == LogAccessError
    {
      GuardedRead(nodes, logDir, filename, LogAccessError)
    }

    /** `read_project_file`. */
    function ReadProjectFile(filename: string): (r: Result<string>)
      reads this
      ensures r.Ok? <==>
        IsFile(nodes, Resolve(projectRoot, filename)) && IsStrictPrefix(projectRoot, Resolve(projectRoot, filename))
      ensures r.Ok? ==> r.value == UniversalNewlines(nodes[Resolve(projectRoot, filename)].text)
      ensures r.Err? ==> r.message == ProjectAccessError
    {
      GuardedRead(nodes, projectRoot, filename, ProjectAccessError)
    }

    /** `list_available_logs`: bare names of the `*.log` entries directly inside the log directory. */
    function ListAvailableLogs(): (names: set<string>)
      reads this
      requires Valid()
      ensures forall name :: name in names <==> logDir + [name] in nodes && EndsWithLog(name)
      ensures forall name :: name in names ==> IsName(name)
    {
      var names := LogNames(nodes, logDir);
      assert forall name :: name in names <==> logDir + [name] in nodes && EndsWithLog(name) by {
        forall name ensures name in names <==> logDir + [name] in nodes && EndsWithLog(name) {
          LogNamesExact(nodes, logDir, name);
        }
      }
      assert forall name :: name in names ==> IsName(name) by {
        forall name | name in names ensures IsName(name) {
          LogNamesExact(nodes, logDir, name);
        }
      }
      names
    }

    /**
     * `list_project_files`: walks every entry below the project root, in
     * whatever order the walk produces, and keeps the regular files no part
     * of whose absolute path is excluded, each relative to the root.
     */
    method ListProjectFiles() returns (files: seq<string>)
      requires Valid()
      ensures (set f | f in files) == ListedNames(nodes, projectRoot)
      ensures forall i, j :: 0 <= i < j < |files| ==> files[i] != files[j]
    {
      var walk := set p | p in nodes && IsStrictPrefix(projectRoot, p);
      var pending := walk;
      ghost var seen: set<Path> := {};
      files := [];
      while pending != {}
        invariant pending + seen == walk && pending !! seen
        invariant (set f | f in files) == NamesOf(nodes, projectRoot, seen)
        invariant forall i, j :: 0 <= i < j < |files| ==> files[i] != files[j]
        decreases pending
      {
        var p :| p in pending;
        if IsFile(nodes, p) && !HasExcludedPart(p) {
          var name := RelativeName(projectRoot, p);
          assert name !in files by {
            if name in files {
              assert name in (set f | f in files);
              assert name in NamesOf(nodes, projectRoot, seen);
              var q :| q in seen && IsListed(nodes, projectRoot, q) && RelativeName(projectRoot, q) == name;
              RelativeNameInjective(projectRoot, p, q);
            }
          }
          files := files + [name];
        }
        assert NamesOf(nodes, projectRoot, seen + {p}) ==
          NamesOf(nodes, projectRoot, seen) + (if IsListed(nodes, projectRoot, p) then {RelativeName(projectRoot, p)} else {});
        pending := pending - {p};
        seen := seen + {p};
      }
      assert NamesOf(nodes, projectRoot, seen) == NamesOf(nodes, projectRoot, nodes.Keys);
    }

    /**
     * `apply_fix`: if the guard accepts `filepath` under the project root,
     * overwrite that file with `newContent` and report the sizes before and
     * after in UTF-8 bytes; otherwise raise and change nothing.
     */
    method ApplyFix(filepath: string, newContent: string, reason: string) returns (r: Result<string>)
      requires Valid()
      modifies this
      ensures Valid()
      ensures var target := Resolve(projectRoot, filepath);
        if IsFile(old(nodes), target) && IsStrictPrefix(projectRoot, target) then
          && nodes == old(nodes)[target := File(newContent)]
          && r == Ok(FixMessage(filepath, reason, Utf8Length(old(nodes)[target].text), Utf8Length(newContent)))
        else
          nodes == old(nodes) && r == Err(FixErrorPrefix + filepath)
      ensures forall q :: q in old(nodes) && q != Resolve(projectRoot, filepath) ==> q in nodes && nodes[q] == old(nodes)[q]
      ensures r.Ok? ==> ReadProjectFile(filepath) == Ok(UniversalNewlines(newContent))
    {
      var target := Authorize(nodes, projectRoot, filepath);
      if target.None? {
        return Err(FixErrorPrefix + filepath);
      }
      var path := target.value;
      ghost var before := nodes;
      assert path == Resolve(projectRoot, filepath);
      assert IsFile(before, path) && IsStrictPrefix(projectRoot, path);
      var oldSize := |Encode(nodes[path].text)|;
      EncodeLength(nodes[path].text);
      OverwriteWellFormed(nodes, path, newContent);
      OverwriteThenRead(nodes, projectRoot, filepath, newContent, ProjectAccessError);
      nodes := nodes[path := File(newContent)];
      assert IsDir(nodes, projectRoot) && IsDir(nodes, logDir) by {
        assert path != projectRoot && path != logDir;
      }
      var newSize := |Encode(newContent)|;
      EncodeLength(newContent);
      r := Ok(FixMessage(filepath, reason, oldSize, newSize));
      assert forall q :: q in before && q != path ==> q in nodes && nodes[q] == before[q];
    }
  }
}
