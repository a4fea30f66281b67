# mcp-demo file tools, modelled in Dafny

The mcp-demo server exposes a Node project to a debugging assistant through
a handful of file tools. Two fixed roots bound everything it touches: the
project directory `NODE_PROJECT_ROOT` and its `logs` directory `LOG_DIR`.
Every read and the one write go through the same guard. The guard joins the
caller's candidate path to the root and resolves it. It then accepts only a
path that names an existing regular file strictly below the root.

- `get_error_log` reads `error.log` through the guard.
- `read_log_file` and `read_project_file` read through the guard.
- `list_available_logs` lists the `*.log` names inside the log directory.
- `list_project_files` walks the project and skips every entry whose path
  contains an excluded name.
- `apply_fix` overwrites a guarded file. It reports the file, the reason and
  the size in bytes before and after.

The model is split into six modules:

- `Paths` (`paths.dfy`): paths as segment sequences, splitting and joining on
  '/', lexical resolution, and `path.parents`.
- `Utf8` (`utf8.dfy`): the UTF-8 byte length, the encoder and a strict
  decoder that proves the encoder loses nothing.
- `Text` (`text.dfy`): universal-newline reading, and `str` of a
  non-negative integer.
- `Server` (`server.dfy`): the filesystem, the guard, the listings, the
  confirmation message, and the `Workspace` class whose `nodes` map
  `apply_fix` updates in place.
- `Scenarios` (`scenarios.dfy`): a small project tree and what each tool
  reports about it.
- `Wrappers` (`wrappers.dfy`): `Option` and `Result`. A raised `ValueError`
  is `Err(message)`.

The filesystem is a map from absolute paths to nodes. `[]` is "/" and
`["srv", "node_project"]` is "/srv/node_project". A file node holds the text
last written to it. `st_size` is the UTF-8 length of that text. `read_text`
opens the file in text mode, so reading applies universal-newline translation:
"\r\n" and a lone "\r" both come back as "\n". A fix whose content holds a
carriage return therefore does not read back byte for byte. `OverwriteThenRead`
states exactly when it does.

The project-listing exclusion test looks at `p.parts` of the absolute path.
So a root that itself lies below a directory named, say, `logs` lists nothing
(`ExcludedRootListsNothing`). The comment at `server.py:73` speaks of "any
part of the path (folder names)", but the test at line 74 looks at `p.parts`
of the absolute path, and the model follows the code. The exclusion applies
only to the listing: `read_project_file(".env")` and `apply_fix(".env", ...)`
pass the guard like any other file (`SampleSecretReadable`).

## Model

| member | source | states |
|---|---|---|
| Paths.Join | mcp_server/mcp_demo/server.py:75 | `str()` of a relative path: the segments glued with '/'; a definition, whose properties are in `Paths.SplitJoin`, `Paths.JoinSplit` and `Paths.JoinInjective` |
| Paths.Resolve | mcp_server/mcp_demo/server.py:50 | `(root / candidate).resolve()` (also at lines 31, 61 and 83), lexically and without following symbolic links; a definition, whose properties are in `Paths.ResolveCanonical`, `Paths.ResolveRelativeNames`, `Paths.ResolveWithoutDotDot`, `Paths.ResolveAbsolute` and `Paths.ResolveClimbOut` |
| Paths.Parents | mcp_server/mcp_demo/server.py:53 | `path.parents`, nearest first; a definition, whose property is in `Paths.ParentsAreStrictPrefixes` |
| Paths.Split | mcp_server/mcp_demo/server.py:50 | cutting a candidate at '/' gives at least one piece, and no piece holds a '/' |
| Paths.SplitAtSeparator | mcp_server/mcp_demo/server.py:50 | a separator after a name cuts that name off as the first piece |
| Paths.SplitName | mcp_server/mcp_demo/server.py:50 | a string without '/' is a single piece |
| Paths.SplitJoin | mcp_server/mcp_demo/server.py:75 | splitting a relative name rendered with '/' gives back its segments |
| Paths.JoinSplit | mcp_server/mcp_demo/server.py:75 | joining the pieces of a string gives back the string |
| Paths.JoinInjective | mcp_server/mcp_demo/server.py:75 | different segment lists render as different relative names |
| Paths.NormalizeCanonical | mcp_server/mcp_demo/server.py:50 | resolving from a canonical path always yields a path made of plain names |
| Paths.ResolveCanonical | mcp_server/mcp_demo/server.py:50 | `(root / candidate).resolve()` is canonical for every candidate string |
| Paths.NormalizeNames | mcp_server/mcp_demo/server.py:50 | plain names are appended unchanged |
| Paths.ResolveRelativeNames | mcp_server/mcp_demo/server.py:61 | a relative path of plain names resolves to exactly that path below the root |
| Paths.NormalizeNoDotDot | mcp_server/mcp_demo/server.py:50 | without ".." the current directory stays a prefix |
| Paths.ResolveWithoutDotDot | mcp_server/mcp_demo/server.py:50 | a relative candidate without ".." stays at or below the root |
| Paths.ResolveAbsolute | mcp_server/mcp_demo/server.py:50 | an absolute candidate ignores the root it is joined to |
| Paths.ResolveClimbOut | mcp_server/mcp_demo/server.py:50-53 | k "../" followed by at most k names lands k levels up, never strictly below the root |
| Paths.ParentsAreStrictPrefixes | mcp_server/mcp_demo/server.py:53 | `root in path.parents` holds exactly when root is a proper ancestor of path |
| Utf8.Utf8Length | mcp_server/mcp_demo/server.py:88-90 | `st_size` of a file and `len(new_content.encode("utf-8"))`; a definition, whose properties are in `Utf8.EncodeLength`, `Utf8.Utf8LengthAppend` and `Utf8.Utf8LengthBounds` |
| Utf8.Encode | mcp_server/mcp_demo/server.py:89-90 | `s.encode("utf-8")`; a definition, whose properties are in `Utf8.EncodeLength` and `Utf8.DecodeEncode` |
| Utf8.Width | mcp_server/mcp_demo/server.py:90 | each code point takes one to four bytes |
| Utf8.EncodeChar | mcp_server/mcp_demo/server.py:90 | one code point encodes to exactly `Width` bytes |
| Utf8.EncodeLength | mcp_server/mcp_demo/server.py:90 | `len(s.encode("utf-8"))` equals the byte count `Utf8Length` |
| Utf8.DecodeFirstEncodeChar | mcp_server/mcp_demo/server.py:90 | an encoded code point decodes back to itself whatever follows it |
| Utf8.DecodeEncode | mcp_server/mcp_demo/server.py:89-90 | decoding the UTF-8 bytes written gives back the text |
| Utf8.Utf8LengthAppend | mcp_server/mcp_demo/server.py:88-90 | byte sizes add up over concatenation |
| Utf8.Utf8LengthBounds | mcp_server/mcp_demo/server.py:88-90 | the byte size lies between the character count and four times it, and equals it for ASCII |
| Text.UniversalNewlines | mcp_server/mcp_demo/server.py:56 | text read back holds no carriage return and is no longer than what was stored |
| Text.UniversalNewlinesIdentity | mcp_server/mcp_demo/server.py:64 | reading leaves the text unchanged exactly when it holds no carriage return |
| Text.UniversalNewlinesIdempotent | mcp_server/mcp_demo/server.py:64 | translating text already read changes nothing |
| Text.Decimal | mcp_server/mcp_demo/server.py:95 | `str(n)` is a nonempty run of digits without a leading zero |
| Text.ParseDecimalInverse | mcp_server/mcp_demo/server.py:95 | the number can be read back from its numeral |
| Text.DecimalInjective | mcp_server/mcp_demo/server.py:95 | different sizes print differently |
| Server.Authorize | mcp_server/mcp_demo/server.py:83-86 | the guard accepts exactly when the resolved path is an existing regular file strictly below the root, and then yields that resolved path |
| Server.GuardedRead | mcp_server/mcp_demo/server.py:50-56 | a guarded read succeeds exactly when the guard accepts; it returns the file's text newline-translated, otherwise the given error message |
| Server.GuardedReadEntry | mcp_server/mcp_demo/server.py:31-33 | a plain name resolves to the entry of that name directly inside the root, and is read exactly when that entry is a regular file |
| Server.GuardedReadClimbOut | mcp_server/mcp_demo/server.py:50-54 | a candidate such as "../../etc/passwd" that climbs out of the root is refused with the error |
| Server.HasExcludedPart | mcp_server/mcp_demo/server.py:74 | `any(part in exclude for part in p.parts)` over the absolute parts; a definition, whose properties are in `Server.ListedNamesAvoidExcluded`, `Server.ExcludedRootListsNothing` and `Server.LogsNeverListed` |
| Server.IsListed | mcp_server/mcp_demo/server.py:72-74 | an entry of the walk that is a regular file with no excluded part; a definition, whose properties are in `Server.ListedNamesReadable` and `Server.ListedNamesAvoidExcluded` |
| Server.RelativeName | mcp_server/mcp_demo/server.py:75 | `str(p.relative_to(root))`; a definition, whose property is in `Server.RelativeNameInjective` |
| Server.ListedNames | mcp_server/mcp_demo/server.py:72-75 | the names `list_project_files` reports; a definition, which `Server.Workspace.ListProjectFiles` is proved to compute |
| Server.LogNames | mcp_server/mcp_demo/server.py:42 | the comprehension over `LOG_DIR.glob("*.log")`; a definition, whose property is in `Server.LogNamesExact` |
| Server.RelativeNameInjective | mcp_server/mcp_demo/server.py:75 | two entries below the root never render as the same relative name |
| Server.LogNamesExact | mcp_server/mcp_demo/server.py:42 | a name is listed exactly when an entry of that name ending in ".log" lies directly in the log directory, and every listed name is bare |
| Server.ListedNamesReadable | mcp_server/mcp_demo/server.py:72-75 | every listed name is accepted by `read_project_file` and has no excluded segment after resolution |
| Server.ListedNamesAvoidExcluded | mcp_server/mcp_demo/server.py:70-74 | no segment of a listed relative name is an excluded name |
| Server.ExcludedRootListsNothing | mcp_server/mcp_demo/server.py:72-74 | since `p.parts` is absolute, a root below an excluded name lists nothing |
| Server.LogsNeverListed | mcp_server/mcp_demo/server.py:68-74 | nothing inside the project's `logs` directory is listed |
| Server.FixMessage | mcp_server/mcp_demo/server.py:92-96 | the confirmation f-string; a definition, whose properties are in `Server.FixMessageReports` and `Server.FixMessageDeterminesSizes` |
| Server.FixMessageReports | mcp_server/mcp_demo/server.py:92-96 | the confirmation holds the filepath, the reason and "old -> new" at fixed offsets |
| Server.DigitsThenNonDigit | mcp_server/mcp_demo/server.py:95 | a run of digits followed by a non-digit is split uniquely |
| Server.SizeChangeInjective | mcp_server/mcp_demo/server.py:95 | both sizes can be read back from the last line |
| Server.FixMessageDeterminesSizes | mcp_server/mcp_demo/server.py:92-96 | confirmations for different sizes differ |
| Server.OverwriteWellFormed | mcp_server/mcp_demo/server.py:89 | overwriting a file keeps every path in the tree resolved |
| Server.OverwriteThenRead | mcp_server/mcp_demo/server.py:83-89 | after an accepted overwrite, reading the same candidate gives the new text newline-translated, and exactly the new text iff it holds no carriage return |
| Server.Workspace.Valid | mcp_server/mcp_demo/server.py:16-22 | the resolved project root and its `logs` directory both exist as directories, and every path is resolved; a definition, which the constructor establishes and `Server.Workspace.ApplyFix` keeps |
| Server.Workspace.constructor | mcp_server/mcp_demo/server.py:14-22 | the two roots are the project directory and its `logs` directory, both existing directories |
| Server.Workspace.GetErrorLog | mcp_server/mcp_demo/server.py:28-34 | `get_error_log` is `read_log_file("error.log")` and succeeds exactly when `logs/error.log` is a regular file |
| Server.Workspace.ReadLogFile | mcp_server/mcp_demo/server.py:44-56 | succeeds exactly when the resolved path is a regular file strictly below the log directory; returns its text newline-translated, or the log error message |
| Server.Workspace.ReadProjectFile | mcp_server/mcp_demo/server.py:58-64 | succeeds exactly when the resolved path is a regular file strictly below the project root; returns its text newline-translated, or the project error message |
| Server.Workspace.ListAvailableLogs | mcp_server/mcp_demo/server.py:39-42 | a name is listed exactly when `logs/<name>` exists and ends in ".log"; every name is bare |
| Server.Workspace.ListProjectFiles | mcp_server/mcp_demo/server.py:66-76 | the walk reports, without repeats, exactly the relative names of the regular files below the root with no excluded part |
| Server.Workspace.ApplyFix | mcp_server/mcp_demo/server.py:78-96 | a refused path raises "Unauthorized or missing file: <filepath>" and changes nothing; an accepted one replaces exactly that file's text, reports the old and new UTF-8 sizes, and reads back as the new text newline-translated (exactly the new text iff it holds no '\r', by `Server.OverwriteThenRead`) |
| Scenarios.SampleWellFormed | mcp_server/mcp_demo/server.py:14-22 | every path in the sample project tree is resolved |
| Scenarios.SampleRoots | mcp_server/mcp_demo/server.py:16-22 | the sample has the project directory and its `logs` directory |
| Scenarios.SampleIndexListed | mcp_server/mcp_demo/server.py:72-75 | the sample's `src/index.js` passes the listing test and is reported as "src/index.js" |
| Scenarios.SampleOthersHidden | mcp_server/mcp_demo/server.py:70-74 | the sample's `.env`, `logs/app.log` and `logs/error.log` are hidden from the listing |
| Scenarios.SampleListing | mcp_server/mcp_demo/server.py:66-76 | the sample's project listing is exactly {"src/index.js"} |
| Scenarios.SampleLogEntries | mcp_server/mcp_demo/server.py:42 | the only entries directly inside the sample's log directory are `app.log` and `error.log` |
| Scenarios.SampleLogs | mcp_server/mcp_demo/server.py:40-42 | the sample's log listing is exactly {"app.log", "error.log"}, as bare names |
| Scenarios.SampleSecretReadable | mcp_server/mcp_demo/server.py:59-64 | `read_project_file(".env")` returns the secrets file's text, since the exclusions apply to the listing only |
| Scenarios.SampleClimbOutRefused | mcp_server/mcp_demo/server.py:61-63 | `read_project_file("../../etc/passwd")` raises the project access error |
| Scenarios.SampleLogClimbOutRefused | mcp_server/mcp_demo/server.py:50-54 | `read_log_file("../../etc/passwd")` raises the log access error |
| Scenarios.SampleSizeChange | mcp_server/mcp_demo/server.py:95 | sizes 10 and 4 print as "10 -> 4 bytes." |
| Scenarios.SampleSizes | mcp_server/mcp_demo/server.py:88-90 | ten ASCII characters take ten bytes and "body" takes four |
| Scenarios.SampleTarget | mcp_server/mcp_demo/server.py:83-85 | "src/index.js" resolves to the sample source file, which the guard accepts |
| Scenarios.SampleReadBack | mcp_server/mcp_demo/server.py:64 | "body" reads back unchanged |
| Scenarios.SampleFix | mcp_server/mcp_demo/server.py:79-96 | `apply_fix("src/index.js", "body", "fix bug")` on the sample confirms the fix with "10 -> 4 bytes.", and the file then reads back as "body" |

## Left out

- The FastMCP server, its decorators and its transport are not modelled. Each tool is a member of `Workspace`.
- The `production_debug_prompt` prompt is not modelled. It is fixed text with no behaviour.
- Server.Workspace.constructor: the roots are parameters. They are not derived from the module's own location. The startup `mkdir` calls become the requirement that both roots are existing directories.
- Symbolic links are not modelled. Resolution is lexical: ".." removes the previous segment. With symlinks, `resolve()` would follow the link first.
- Paths.ResolveClimbOut covers a climb of at most the root's depth. Deeper climbs stop at "/" and are covered by the general guard contract.
- Invalid UTF-8 in a file is not modelled. Files hold text, so `errors="ignore"` never has anything to drop.
- Strings with lone surrogates are not modelled. Dafny strings cannot hold them. Python would fail on such a string in `write_text` after truncating the file.
- Newline translation on write is not modelled. On POSIX, `write_text` writes "\n" unchanged.
- Embedded NUL characters and other OS-level errors (permissions, a full disk, a file removed between the check and the read) are not modelled. Neither are the exceptions they raise.
- Server.Workspace.ListProjectFiles: the walk is every entry of the map strictly below the root. The model does not require every parent directory to be present in the map. The order in which `rglob` yields entries is left open: the method may report the names in any order.
- Server.Workspace.ListAvailableLogs: the result is a set. The glob order of the list is not modelled.
- Concurrent tool calls are not modelled.
- `node_project/index.ts` and `node_project/logger.ts` are not part of this model. They are the application being debugged, not the server.
