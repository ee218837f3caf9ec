# Node Test Runner: a verified model of its core

The Node Test Runner extension for VS Code finds `node:test` declarations
(`test(...)`, `it(...)`, `describe(...)`, with an optional `.skip` or `.only`)
in JavaScript documents. It runs one test, or one file, with
`node --test` in one integrated terminal per workspace folder, and it can stop
a watch run. This project models the three parts of the extension that hold
its logic, and proves what they promise:

- `node_test_parser.dfy` (module `NodeTestParser`) covers the test-declaration
  scanner. It recognises the single fixed line pattern of
  `src/utils/node-test-parser.js:1` character by character: the
  whitespace classes of JavaScript, the keyword and qualifier, and the quoted
  name under the backtracking rule of the pattern. It also splits a document
  into lines, collects declarations in document order, and escapes a name into
  an exact-match `--test-name-pattern`.
- `json_string.dfy` (module `JsonString`) covers `JSON.stringify` of a string,
  which the extension uses to quote command-line words. This is the
  QuoteJSONString operation of ECMAScript, producing the string literals of
  section 7 of RFC 8259. The module includes a decoder, which is used to prove
  that nothing is lost in quoting.
- `argument_resolver.dfy` (module `ArgumentResolver`) covers how a command
  finds its target. The explicit `fileUri` / `testName` arguments come first.
  Otherwise the active document is used, and the nearest declaration at or
  above the cursor.
- `terminal_manager.dfy` (module `TerminalManager`) covers the registry of
  terminals by workspace key, as the class `TerminalRegistry`. The registry is
  an insertion-ordered sequence of entries, as a JavaScript `Map` iterates. The
  class has a fresh-handle counter and a log of the calls made into terminals
  (create, send text, show, dispose). The module also holds the command line
  `runNodeTest` builds, and the ways a terminal leaves the registry: a stop,
  the close listener, and shutdown.
- `wrappers.dfy` (module `Wrappers`) holds `Option` (a value or `undefined`)
  and `Result` (a value or a thrown `Error` with its message).

Uri values follow `test/vscode-mock.js:5-23`. `Uri.file(p)` is the Uri with
scheme `file` and path `p`, and its `fsPath` is `p`. For a workspace folder,
the string form of its Uri, its name and its file-system path are given as
plain fields.

The quoted pattern word of the command line carries every backslash that
`buildExactTestPattern` inserted doubled. For the test `adds (1,2)`, it is
`"^adds \\(1,2\\)$"`, because `JSON.stringify` escapes backslashes
(`src/utils/terminal-manager.js:57-60`, `JsonString.QuoteEscapesEmbedded`). A
POSIX shell reading this double-quoted word turns each `\\` back into `\`, so
`node` receives `^adds \(1,2\)$`; the shell itself is not modelled.

## Model

| member | source | states |
|---|---|---|
| NodeTestParser.SkipWhitespace | src/utils/node-test-parser.js:1 | `\s*` stops at the first character that is not JavaScript whitespace, and everything it skips is whitespace |
| NodeTestParser.MatchKeyword | src/utils/node-test-parser.js:1 | a keyword match is a non-empty step within the line |
| NodeTestParser.KeywordMatch | src/utils/node-test-parser.js:1 | when `test`, `it` or `describe` stands at the position, exactly that keyword is consumed |
| NodeTestParser.KeywordSlice | src/utils/node-test-parser.js:1 | whatever a keyword match consumes is one of `test`, `it`, `describe` |
| NodeTestParser.MatchQualifier | src/utils/node-test-parser.js:1 | the optional qualifier takes `.skip` or `.only` when one stands at the position, and nothing otherwise |
| NodeTestParser.MatchOpening | src/utils/node-test-parser.js:1 | an accepted opening ends just after a quote character `'`, `"` or backtick, and reports that quote |
| NodeTestParser.MatchBody | src/utils/node-test-parser.js:1 | the backtracking search for the quoted name ends on the same quote, after a non-empty capture that is a body (escape atoms or non-terminator characters other than the quote) |
| NodeTestParser.FindTestNameInLine | src/utils/node-test-parser.js:9-20 | a name that is found is never empty; the empty line yields no name |
| NodeTestParser.FindTestNameInLineSound | src/utils/node-test-parser.js:1-20 | every name found comes from a line of the pattern's language: whitespace, keyword, optional `.skip`/`.only`, whitespace, `(`, whitespace, a quote, the name, the same quote, then anything |
| NodeTestParser.FindTestNameInLineComplete | src/utils/node-test-parser.js:1-20 | every line of that language yields a name, and the name starts right after the opening quote and is followed by a character of the line |
| NodeTestParser.FindTestNameInLinePlain | src/utils/node-test-parser.js:1-20 | for a line of the language whose name has no backslash, exactly that name is found |
| NodeTestParser.BodyHasNoLineTerminator | src/utils/node-test-parser.js:1 | a body holds no line terminator, since `.` does not match one |
| NodeTestParser.NameHasNoLineTerminator | src/utils/node-test-parser.js:1-20 | a found name holds no `\n`, `\r`, U+2028 or U+2029 |
| NodeTestParser.MatchBodyPlain | src/utils/node-test-parser.js:1 | a run of plain characters is read exactly up to the closing quote |
| NodeTestParser.PlainBodyHasNoQuote | src/utils/node-test-parser.js:1 | a body without backslashes does not contain its quote |
| NodeTestParser.SpacesExample | src/utils/node-test-parser.test.js:27 | `   test("with spaces", () => {})` yields `with spaces` |
| NodeTestParser.SingleQuotesExample | src/utils/node-test-parser.test.js:28 | a tab, then `it.only('single quotes', fn);`, yields `single quotes` |
| NodeTestParser.TemplatedExample | src/utils/node-test-parser.test.js:29 | ``describe.skip(`templated`, fn);`` yields `templated` |
| NodeTestParser.NoKeywordExample | src/utils/node-test-parser.test.js:30 | `console.log("no match")` yields nothing |
| NodeTestParser.SplitLines | src/utils/node-test-parser.js:27 | `split(/\r?\n/)` always gives at least one line |
| NodeTestParser.SplitLinesCounts | src/utils/node-test-parser.js:27 | one line per `\n` plus one, and no line holds a `\n` |
| NodeTestParser.SplitJoinLines | src/utils/node-test-parser.js:27 | splitting lines joined with `\n` gives the lines back, when no line holds `\n` and none but the last ends in `\r` |
| NodeTestParser.SplitJoinCrlfLines | src/utils/node-test-parser.js:27 | splitting lines joined with `\r\n` gives the lines back, for any lines that hold no `\n` |
| NodeTestParser.DeclarationsSound | src/utils/node-test-parser.js:28-36 | every declaration has the index of a line of the document, and its name is that line's non-empty name |
| NodeTestParser.DeclarationsOrdered | src/utils/node-test-parser.js:28-36 | declarations are in strictly increasing line order |
| NodeTestParser.DeclarationsComplete | src/utils/node-test-parser.js:28-36 | every line that yields a non-empty name has a declaration |
| NodeTestParser.FindTestsInDocument | src/utils/node-test-parser.js:22-37 | a non-string input gives `[]`; otherwise the loop returns exactly the declarations of the split lines |
| NodeTestParser.EscapeForRegex | src/utils/node-test-parser.js:39-41 | the escaped text is as long as the input plus the number of special characters (`.*+?^${}()[]` and the bar and backslash) |
| NodeTestParser.EscapeRoundTrip | src/utils/node-test-parser.js:2-3 | escaping yields a pattern made only of literal atoms, and dropping the inserted backslashes gives the input back |
| NodeTestParser.EscapeConcat | src/utils/node-test-parser.js:39-41 | escaping works character by character: the escape of a concatenation is the concatenation of the escapes |
| NodeTestParser.BuildExactTestPattern | src/utils/node-test-parser.js:43-45 | the pattern starts with `^` and ends with `$`, and is two longer than the escaped name |
| NodeTestParser.ExactPatternMatchesOnlyName | src/utils/node-test-parser.js:43-45 | between `^` and `$` stands a literal pattern whose only match is the test name |
| NodeTestParser.ExactPatternInjective | src/utils/node-test-parser.js:43-45 | different names give different patterns |
| NodeTestParser.ComplexPatternExample | src/utils/node-test-parser.test.js:33-36 | `handles (complex) cases?` gives `^handles \(complex\) cases\?$` |
| NodeTestParser.EmptyPatternExample | src/utils/node-test-parser.js:43-45 | the empty name gives `^$` |
| JsonString.EscapeChar | src/utils/terminal-manager.js:21-23 | a character stays as it is exactly when it is not `"`, `\` or a character below U+0020; otherwise it becomes an escape of at most six characters starting with `\` |
| JsonString.Quote | src/utils/terminal-manager.js:21-23 | the quoted text starts and ends with `"` |
| JsonString.DecodeEscapeChar | src/utils/terminal-manager.js:21-23 | decoding undoes the escape of each single character |
| JsonString.DecodeQuoteBody | src/utils/terminal-manager.js:21-23 | decoding the text between the quotes gives the original string |
| JsonString.UnquoteQuote | src/utils/terminal-manager.js:21-23 | `JSON.parse(JSON.stringify(s))` is `s` |
| JsonString.QuoteInjective | src/utils/terminal-manager.js:21-23 | different strings are quoted differently |
| JsonString.QuoteBodyClean | src/utils/terminal-manager.js:21-23 | quoted text holds no character below U+0020 (so no `\n` or `\r`) |
| JsonString.QuoteBodyConcat | src/utils/terminal-manager.js:21-23 | quoting works character by character |
| JsonString.QuotePlain | src/utils/terminal-manager.test.js:41-46 | text with nothing to escape, spaces included, is only wrapped in double quotes |
| JsonString.QuoteEscapesEmbedded | src/utils/terminal-manager.test.js:34-39 | an embedded `"` or `\` gets one backslash in front of it, wherever it stands |
| JsonString.QuoteSimpleExample | src/utils/terminal-manager.test.js:27-32 | `test` is quoted as `"test"` |
| JsonString.QuoteQuotesExample | src/utils/terminal-manager.test.js:34-39 | `test with "quotes"` is quoted as `"test with \"quotes\""` |
| JsonString.QuotePathExample | src/utils/terminal-manager.test.js:41-46 | `/path/to/my test.js` is quoted as `"/path/to/my test.js"` |
| ArgumentResolver.NormalizeUri | src/utils/argument-resolver.js:11-25 | succeeds exactly for a Uri, a string or an object with a truthy `path`, and otherwise fails with `Cannot convert value to Uri`; a Uri comes back as it is, a string `s` (the empty one included) gives the file Uri with path `s`, and an object gives the file Uri of its `path` |
| ArgumentResolver.NormalizeUriKeepsUri | src/utils/argument-resolver.js:12-14 | a Uri is returned unchanged |
| ArgumentResolver.NormalizeUriIdempotent | src/utils/argument-resolver.js:11-25 | normalising a normalised value changes nothing |
| ArgumentResolver.NormalizeUriText | src/utils/argument-resolver.js:16-18 | every string, the empty one included, is accepted and becomes a Uri with exactly that path |
| ArgumentResolver.NormalizeUriPathAgrees | src/utils/argument-resolver.js:16-22 | a string and an object with the same non-empty path give the same file Uri |
| ArgumentResolver.NormalizeUriExamples | src/utils/argument-resolver.test.js:9-29 | `/test/path.js` and `{path: '/test/file.js'}` become file Uris; `null` is refused with the message |
| ArgumentResolver.ResolveDocumentUri | src/utils/argument-resolver.js:30-37 | a truthy argument is normalised (and its error passed on); otherwise the active document's Uri, or nothing without an editor |
| ArgumentResolver.ResolveDocumentUriExamples | src/utils/argument-resolver.test.js:37-47 | `{fileUri: '/test.js'}` gives its file Uri; `{}` with no editor gives nothing |
| ArgumentResolver.NearestDeclaration | src/utils/argument-resolver.js:58-65 | the greatest line at or above the cursor that yields a name, with no such line strictly between it and the cursor; none exactly when no line up to the cursor yields a name |
| ArgumentResolver.NearestDeclarationUnique | src/utils/argument-resolver.js:58-63 | any line with those properties is the one found |
| ArgumentResolver.NearestDeclarationNone | src/utils/argument-resolver.js:58-65 | when no line up to the cursor yields a name, nothing is found |
| ArgumentResolver.ResolveRunTarget | src/utils/argument-resolver.js:42-66 | complete arguments give their normalised target without looking at the editor; otherwise nothing without an editor, else the upward walk gives exactly the nearest declaration |
| ArgumentResolver.EditorTargetIsDeclaration | src/utils/argument-resolver.js:58-63 | a target taken from the editor is a declaration of the document at or above the cursor |
| ArgumentResolver.ResolveRunTargetExamples | src/utils/argument-resolver.test.js:55-71 | `{fileUri: '/test.js', testName: 'my test'}` gives that target; `{}` with no editor gives nothing |
| TerminalManager.WorkspaceKey | src/utils/terminal-manager.js:14-16 | the folder's Uri string, or `root` with no folder |
| TerminalManager.WorkspaceKeyExamples | src/utils/terminal-manager.test.js:6-23 | the test folder gives `file:///workspace`, no folder gives `root` |
| TerminalManager.OptionsFor | src/utils/terminal-manager.js:32-36 | a new terminal is named `Node Test Runner (<folder name>)`, or `Node Test Runner` with no folder, and gets a working directory exactly when there is a folder, namely the folder's path |
| TerminalManager.OptionsNameInjective | src/utils/terminal-manager.js:32 | terminals of differently named folders, and the one outside any folder, get different names |
| TerminalManager.ShellQuote | src/utils/terminal-manager.js:21-23 | the quoted word reads back as the original text |
| TerminalManager.ShellQuoteExample | src/utils/terminal-manager.test.js:27-32 | `shellQuote('test')` is `"test"` |
| TerminalManager.CommandWords | src/utils/terminal-manager.js:52-62 | three words, one more with `--watch` and two more with a truthy name: `node`, `--test`, `--watch` in third place exactly when asked for, the quoted exact pattern second to last when the name is truthy, and the quoted path last |
| TerminalManager.Join | src/utils/terminal-manager.js:63 | `join` of no parts is empty; otherwise the first part starts the result and the last part ends it |
| TerminalManager.CommandLine | src/utils/terminal-manager.js:63 | the command line starts with `node --test ` and ends with the quoted path |
| TerminalManager.CommandWordsShape | src/utils/terminal-manager.js:52-62 | `node`, `--test`, then `--watch` exactly when asked for, then `--test-name-pattern` and the quoted exact pattern exactly when the name is truthy, then the quoted path; the quoted words read back as the pattern and the path |
| TerminalManager.CommandSelectsOnlyTest | src/utils/terminal-manager.js:57-60 | the pattern word, read back as a JSON string literal, is a literal pattern whose text is the test name |
| TerminalManager.CommandLineSingleLine | src/utils/terminal-manager.js:63-64 | the command line holds no character below U+0020 (so no `\n` or `\r`), so it is a single line of text |
| TerminalManager.Lookup | src/utils/terminal-manager.js:30 | `get` finds a stored entry with the key, or reports that no entry has it |
| TerminalManager.LookupAt | src/utils/terminal-manager.js:30 | with distinct keys, `get` finds the terminal stored under the key |
| TerminalManager.LookupAppend | src/utils/terminal-manager.js:39 | `set` of a new key makes it find the new terminal and changes no other key |
| TerminalManager.AppendFresh | src/utils/terminal-manager.js:38-39 | storing a fresh terminal under a new key keeps keys and terminals distinct |
| TerminalManager.RemoveKey | src/utils/terminal-manager.js:80 | `delete` leaves no entry with the key, does not grow the registry, and keeps only entries it had |
| TerminalManager.RemoveKeyMembers | src/utils/terminal-manager.js:80 | `delete` keeps exactly the entries with other keys |
| TerminalManager.RemoveKeyAt | src/utils/terminal-manager.js:80 | with distinct keys, `delete` removes exactly the key's entry and keeps the order of the others |
| TerminalManager.RemoveKeyAbsent | src/utils/terminal-manager.js:80 | deleting an absent key changes nothing |
| TerminalManager.LookupRemoveKey | src/utils/terminal-manager.js:80 | after `delete`, the key finds nothing and every other key finds what it found before |
| TerminalManager.RemoveKeyIdempotent | src/utils/terminal-manager.js:80 | deleting a key twice is deleting it once |
| TerminalManager.RemoveKeyDropsTerminal | src/utils/terminal-manager.js:80 | with distinct terminals, deleting a terminal's key leaves no entry holding that terminal |
| TerminalManager.WithoutTerminal | src/utils/terminal-manager.js:90-95 | the close scan removes at most one entry, and leaves the entries as they are when it removes none |
| TerminalManager.WithoutTerminalAt | src/utils/terminal-manager.js:90-95 | the close scan removes exactly the first entry holding the terminal, keeping the order of the others |
| TerminalManager.WithoutTerminalAbsent | src/utils/terminal-manager.js:90-95 | a close for a terminal no entry holds changes nothing |
| TerminalManager.ClosedTerminalGone | src/utils/terminal-manager.js:90-95 | with distinct terminals, after the removal no entry holds the closed terminal |
| TerminalManager.StopThenCloseIsNoOp | src/utils/terminal-manager.js:80-81 | the close event fired by a stop's dispose finds nothing left to remove |
| TerminalManager.DisposalLog | src/utils/terminal-manager.js:103-107 | one dispose attempt per registered terminal, in registry order, each recording whether it threw |
| TerminalManager.InvCreate | src/utils/terminal-manager.js:38-39 | creating a terminal for a new key keeps the registry invariant (distinct keys, distinct terminals, all created, none registered after disposal) |
| TerminalManager.InvRemove | src/utils/terminal-manager.js:80-81 | deleting an entry keeps the invariant, also when its terminal is disposed next |
| TerminalManager.TerminalRegistry.constructor | src/utils/terminal-manager.js:5 | the registry starts empty, with no terminal created |
| TerminalManager.TerminalRegistry.GetOrCreateTerminal | src/utils/terminal-manager.js:28-43 | a present key gives its terminal and changes nothing; an absent key creates exactly one terminal with the folder's options and adds only its entry; the invariant holds |
| TerminalManager.TerminalRegistry.RunNodeTest | src/utils/terminal-manager.js:48-66 | a value `normalizeUri` cannot convert (neither a Uri, a string, nor an object with a truthy `path`) fails with `Cannot convert value to Uri` before anything happens; otherwise the workspace's terminal (created if needed) is sent the command line, then shown |
| TerminalManager.TerminalRegistry.SendAndShow | src/utils/terminal-manager.js:64-65 | a registered terminal is sent the text, then shown, and the registry is unchanged |
| TerminalManager.TerminalRegistry.StopNodeWatch | src/utils/terminal-manager.js:71-83 | with no terminal for the workspace, false and nothing changes; otherwise the key is deleted, then the terminal disposed, and true; the key is absent afterwards |
| TerminalManager.TerminalRegistry.OnTerminalClosed | src/utils/terminal-manager.js:88-97 | the first entry holding the closed terminal is deleted and nothing else changes; afterwards no entry holds it; for a terminal the extension disposed, nothing changes |
| TerminalManager.TerminalRegistry.DisposeAllTerminals | src/utils/terminal-manager.js:102-110 | every registered terminal gets a dispose attempt in registry order, whether or not earlier ones threw, and the registry is left empty |
| TerminalManager.SameWorkspaceScenario | src/utils/terminal-manager.js:28-43 | two requests for the same workspace get the same terminal |
| TerminalManager.StopTwiceScenario | src/utils/terminal-manager.js:71-83 | after a run, a first stop answers true and a second answers false |
| TerminalManager.CloseThenReopenScenario | src/utils/terminal-manager.js:88-97 | after the user closes the workspace's terminal, the next request creates a different one |
| TerminalManager.DisposeAllScenario | src/utils/terminal-manager.js:102-110 | shutting down with terminals for two workspaces attempts one dispose per distinct workspace key and leaves no entry |

## Left out

- `src/extension.js` is not part of this model. It covers activation, command registration and CodeLens construction, which are presentation over the editor API.
- `src/handlers/run-command-handler.js` and `src/handlers/stop-command-handler.js` are not part of this model. They route commands to the parts above and show messages. For a file-scope run the handler passes no test name; that is the `None` name of `RunNodeTest`.
- `src/utils/resolve-run-target.js` and `src/utils/resolve-document-uri.js` are not modelled. They duplicate the resolver methods and import a name that `terminal-manager.js` does not export, so they cannot load.
- The stale copy `src/node-test-parser.test.js` and the loader files under `test/` are not modelled; only the Uri shape is taken from `test/vscode-mock.js`.
- The editor API is replaced by plain values:
  - terminals are fresh numbered handles, and their calls are entries of a log;
  - `getWorkspaceFolder` is a function parameter;
  - `Uri.toString()` and `fsPath` of a folder are given strings;
  - whether a `dispose` throws in `disposeAllTerminals` is a parameter;
  - the `Disposable` that registers the close listener is not modelled (`OnTerminalClosed` is its callback).
- TerminalManager.TerminalRegistry.StopNodeWatch: does not model a `dispose` that throws; the key is deleted before the call either way.
- TerminalManager.TerminalRegistry.RunNodeTest: `async` is not modelled. `runNodeTest` and `stopNodeWatch` await nothing, so a thrown error is a rejected promise, written as `Err`.
- ArgumentResolver.NormalizeUri: a `path` property that is truthy but not a string, and a truthy `testName` that is not a string, are not modelled; an object's `path` is an optional string.
- ArgumentResolver.ResolveRunTarget: the document's lines are given as the editor's line texts. How VS Code splits a document into lines is not modelled.
- TerminalManager.CommandLineSingleLine: DEL (U+007F) and the C1 controls (U+0080 to U+009F) are left unescaped by `JSON.stringify`, so they reach the terminal as they are; how the terminal treats them is not modelled.
- JsonString.Quote: lone UTF-16 surrogates (which `JSON.stringify` writes as `\uXXXX`) cannot occur in a Dafny string, whose characters are Unicode scalar values.
- NodeTestParser.FindTestsInDocument: the seven-line document of `src/utils/node-test-parser.test.js:6-23` is not stated as its own lemma, and neither are its individual lines. What the test checks (every declaration found, with its line index, in document order) is proved for every document by `DeclarationsSound`, `DeclarationsOrdered` and `DeclarationsComplete`.
- TerminalManager.CommandLine: how the terminal's shell reads the line is not modelled. `JSON.stringify` is not shell quoting: inside double quotes a POSIX shell still expands `$`, backquotes and `\`. So a path or a test name holding such characters can reach `node` changed, or make the shell run something else. The model proves only that the line is a single line and that its quoted words read back, as JSON, to the pattern and the path.
- TerminalManager.TerminalRegistry.GetOrCreateTerminal: a `createTerminal`, `sendText` or `show` that throws is not modelled. In the source, a throwing `createTerminal` rejects `runNodeTest` and registers nothing.
- A general regular-expression engine is not modelled: only the fixed line pattern and the escape pattern are.
