/**
 * Worked examples: a small project tree with a source file, a secrets file
 * and two logs, and what the tools report about it.
 */
module Scenarios {
  import opened Wrappers
  import opened Paths
  import opened Utf8
  import opened Text
  import opened Server

  const Root: Path := ["srv", "node_project"]

  /**
   * "/srv/node_project" holding `src/index.js` (ten ASCII bytes), `.env`,
   * and `logs/app.log` and `logs/error.log`.
   */
  function SampleTree(): Tree {
    map[
      ["srv", "node_project"] := Dir,
      ["srv", "node_project", "src"] := Dir,
      ["srv", "node_project", "src", "index.js"] := File("0123456789"),
      ["srv", "node_project", ".env"] := File("KEY=1"),
      ["srv", "node_project", "logs"] := Dir,
      ["srv", "node_project", "logs", "app.log"] := File("started\n"),
      ["srv", "node_project", "logs", "error.log"] := File("TypeError\n")
    ]
  }

  lemma SampleWellFormed()
    ensures WellFormed(SampleTree())
  {
  }

  /** `src/index.js` is listed under that name. */
  lemma SampleIndexListed()
    ensures IsListed(SampleTree(), Root, ["srv", "node_project", "src", "index.js"])
    ensures RelativeName(Root, ["srv", "node_project", "src", "index.js"]) == "src/index.js"
  {
    var p := ["srv", "node_project", "src", "index.js"];
    assert AbsoluteParts(p) == ["/", "srv", "node_project", "src", "index.js"];
    assert p[|Root|..] == ["src", "index.js"];
    JoinCons("src", ["index.js"]);
  }

  /** `.env` and the logs are hidden from the listing. */
  lemma SampleOthersHidden()
    ensures !IsListed(SampleTree(), Root, ["srv", "node_project", ".env"])
    ensures !IsListed(SampleTree(), Root, ["srv", "node_project", "logs", "app.log"])
    ensures !IsListed(SampleTree(), Root, ["srv", "node_project", "logs", "error.log"])
  {
    var env := ["srv", "node_project", ".env"];
    assert AbsoluteParts(env)[3] == ".env";
    LogsNeverListed(SampleTree(), Root, ["srv", "node_project", "logs", "app.log"]);
    LogsNeverListed(SampleTree(), Root, ["srv", "node_project", "logs", "error.log"]);
  }

  /** The project listing of the sample holds `src/index.js` only. */
  lemma SampleListing()
    ensures ListedNames(SampleTree(), Root) == {"src/index.js"}
  {
    SampleIndexListed();
    SampleOthersHidden();
  }

  /** The only entries directly inside the sample's log directory are the two logs. */
  lemma SampleLogEntries(p: Path)
    requires p in SampleTree() && |p| == 4 && p[..3] == ["srv", "node_project", "logs"]
    ensures p[3] == "app.log" || p[3] == "error.log"
  {
    assert p[2] == "logs";
  }

  /** The log listing of the sample holds both logs, as bare names. */
  lemma SampleLogs()
    ensures LogNames(SampleTree(), Root + ["logs"]) == {"app.log", "error.log"}
  {
    var logDir := Root + ["logs"];
    assert logDir == ["srv", "node_project", "logs"];
    assert logDir + ["app.log"] == ["srv", "node_project", "logs", "app.log"];
    assert logDir + ["error.log"] == ["srv", "node_project", "logs", "error.log"];
    forall name | name in LogNames(SampleTree(), logDir) ensures name == "app.log" || name == "error.log" {
      var p :| p in SampleTree() && |p| == |logDir| + 1 && p[..|logDir|] == logDir && p[|logDir|] == name;
      SampleLogEntries(p);
    }
  }

  /**
   * The exclusion list only shapes the listing: `read_project_file(".env")`
   * reads the secrets file like any other.
   */
  lemma SampleSecretReadable()
    ensures GuardedRead(SampleTree(), Root, ".env", ProjectAccessError) == Ok("KEY=1")
  {
    GuardedReadEntry(SampleTree(), Root, ".env", ProjectAccessError);
    assert Root + [".env"] == ["srv", "node_project", ".env"];
    UniversalNewlinesIdentity("KEY=1");
  }

  /** "../../etc/passwd" from the project root is refused. */
  lemma SampleClimbOutRefused()
    ensures GuardedRead(SampleTree(), Root, "../../etc/passwd", ProjectAccessError) == Err(ProjectAccessError)
  {
    assert UpLevels(2) + Join(["etc", "passwd"]) == "../../etc/passwd";
    GuardedReadClimbOut(SampleTree(), Root, 2, ["etc", "passwd"], ProjectAccessError);
  }

  lemma SampleSizeChange()
    ensures SizeChange(10, 4) == "10 -> 4 bytes."
  {
    assert Decimal(10) == "10" && Decimal(4) == "4";
  }

  /** "../../etc/passwd" from the log directory is refused. */
  lemma SampleLogClimbOutRefused()
    ensures GuardedRead(SampleTree(), Root + ["logs"], "../../etc/passwd", LogAccessError) == Err(LogAccessError)
  {
    assert UpLevels(2) + Join(["etc", "passwd"]) == "../../etc/passwd";
    GuardedReadClimbOut(SampleTree(), Root + ["logs"], 2, ["etc", "passwd"], LogAccessError);
  }

  /** Ten ASCII bytes replaced by four are reported as "10 -> 4". */
  lemma SampleSizes()
    ensures Utf8Length("0123456789") == 10 && Utf8Length("body") == 4
  {
    Utf8LengthBounds("0123456789");
    Utf8LengthBounds("body");
  }

  lemma SampleRoots()
    ensures IsDir(SampleTree(), Root) && IsDir(SampleTree(), Root + ["logs"])
  {
    assert Root + ["logs"] == ["srv", "node_project", "logs"];
  }

  /** "src/index.js" names the sample's source file, which the guard accepts. */
  lemma SampleTarget()
    ensures Resolve(Root, "src/index.js") == ["srv", "node_project", "src", "index.js"]
    ensures IsFile(SampleTree(), Resolve(Root, "src/index.js"))
    ensures IsStrictPrefix(Root, Resolve(Root, "src/index.js"))
    ensures SampleTree()[Resolve(Root, "src/index.js")].text == "0123456789"
  {
    assert Join(["src", "index.js"]) == "src/index.js";
    ResolveRelativeNames(Root, ["src", "index.js"]);
  }

  lemma SampleReadBack()
    ensures UniversalNewlines("body") == "body"
  {
    UniversalNewlinesIdentity("body");
  }

  /**
   * `apply_fix("src/index.js", "body", "fix bug")` on the sample reports
   * 10 -> 4 bytes, and reading the file back gives "body".
   */
  method SampleFix() returns (message: Result<string>, readBack: Result<string>)
    ensures message == Ok(FixHeader("src/index.js", "fix bug") + "10 -> 4 bytes.")
    ensures readBack == Ok("body")
  {
    SampleWellFormed();
    SampleTarget();
    SampleRoots();
    var w := new Workspace(Root, SampleTree());
    message := w.ApplyFix("src/index.js", "body", "fix bug");
    SampleSizes();
    SampleSizeChange();
    readBack := w.ReadProjectFile("src/index.js");
    SampleReadBack();
  }
}
