/**
 * How a command finds its target: turning the `fileUri` argument into a Uri,
 * and, when the arguments are incomplete, taking the document and the
 * nearest test declaration at or above the cursor from the active editor.
 */
module ArgumentResolver {
  import opened Wrappers
  import NodeTestParser

  /** A `vscode.Uri`, reduced to what the extension reads from it. */
  datatype Uri = Uri(scheme: string, path: string)

  /** `vscode.Uri.file(path)`. */
  function FileUri(path: string): (u: Uri)
    ensures u.scheme == "file" && u.path == path
  {
    Uri("file", path)
  }

  /** `uri.fsPath`: the path of a file Uri. */
  function FsPath(u: Uri): string {
    u.path
  }

  /**
   * The values a `fileUri` argument can hold: a Uri, a string, another
   * object (with its `path` property when that is a string), `undefined` or
   * `null`, and any other primitive value with its truthiness.
   */
  datatype UriLike =
    | IsUri(uri: Uri)
    | Text(text: string)
    | Record(path: Option<string>)
    | Nothing
    | OtherValue(truthy: bool)

  /** JavaScript truthiness of such a value: objects are truthy, the empty string is not. */
  predicate Truthy(v: UriLike) {
    match v
    case IsUri(_) => true
    case Text(t) => t != []
    case Record(_) => true
    case Nothing => false
    case OtherValue(b) => b
  }

  /** `value?.path` is truthy. */
  predicate HasPath(v: UriLike) {
    v.Record? && v.path.Some? && v.path.value != []
  }

  const CannotConvert: string := "Cannot convert value to Uri"

  /** `normalizeUri`: a Uri as it is, a string or a truthy `path` as a file Uri, anything else an error. */
  function NormalizeUri(v: UriLike): (r: Result<Uri>)
    ensures r.Ok? <==> v.IsUri? || v.Text? || HasPath(v)
    ensures r.Err? ==> r.message == CannotConvert
    ensures r.Ok? && !v.IsUri? ==> r.value.scheme == "file"
    ensures v.IsUri? ==> r == Ok(v.uri)
    ensures v.Text? ==> r == Ok(FileUri(v.text))
    ensures HasPath(v) ==> r == Ok(FileUri(v.path.value))
  {
    if v.IsUri? then Ok(v.uri)
    else if v.Text? then Ok(FileUri(v.text))
    else if HasPath(v) then Ok(FileUri(v.path.value))
    else Err(CannotConvert)
  }

  /** A Uri is returned unchanged. */
  lemma NormalizeUriKeepsUri(u: Uri)
    ensures NormalizeUri(IsUri(u)) == Ok(u)
  {
  }

  /** Normalising a normalised value changes nothing. */
  lemma NormalizeUriIdempotent(v: UriLike)
    requires NormalizeUri(v).Ok?
    ensures NormalizeUri(IsUri(NormalizeUri(v).value)) == NormalizeUri(v)
  {
  }

  /** Every string is a path, the empty one included: its file Uri has exactly that path. */
  lemma NormalizeUriText(p: string)
    ensures NormalizeUri(Text(p)).Ok? && NormalizeUri(Text(p)).value.path == p
  {
  }

  /** A string and an object carrying the same non-empty path give the same file Uri. */
  lemma NormalizeUriPathAgrees(p: string)
    requires p != []
    ensures NormalizeUri(Text(p)) == NormalizeUri(Record(Some(p))) == Ok(FileUri(p))
  {
  }

  /** The arguments object of a command; `undefined` is the arguments with nothing in them. */
  datatype CommandArgs = CommandArgs(fileUri: UriLike, testName: Option<string>)

  const NoArguments: CommandArgs := CommandArgs(Nothing, None)

  /** `arguments_?.testName` is truthy. */
  predicate HasTestName(args: CommandArgs) {
    args.testName.Some? && args.testName.value != []
  }

  /**
   * The active text editor: the document's lines, the line of the cursor and
   * the document's Uri. The cursor is always on a line of the document.
   */
  datatype Editor = Editor(lines: seq<string>, activeLine: nat, uri: Uri)

  predicate ValidEditor(editor: Option<Editor>) {
    editor.Some? ==> editor.value.activeLine < |editor.value.lines|
  }

  /** `resolveDocumentUri`: the argument when it is truthy, otherwise the active document, if any. */
  function ResolveDocumentUri(args: CommandArgs, editor: Option<Editor>): (r: Result<Option<Uri>>)
    ensures Truthy(args.fileUri) ==> (r.Ok? <==> NormalizeUri(args.fileUri).Ok?)
    ensures Truthy(args.fileUri) && r.Ok? ==> r.value == Some(NormalizeUri(args.fileUri).value)
    ensures !Truthy(args.fileUri) ==> r.Ok? && (r.value.Some? <==> editor.Some?)
    ensures !Truthy(args.fileUri) && editor.Some? ==> r.value.value == editor.value.uri
  {
    if Truthy(args.fileUri) then
      var u := NormalizeUri(args.fileUri);
      if u.Ok? then Ok(Some(u.value)) else Err(u.message)
    else if editor.Some? then Ok(Some(editor.value.uri))
    else Ok(None)
  }

  /** What a run command runs: a file and the name of one test in it. */
  datatype RunTarget = RunTarget(fileUri: Uri, testName: string)

  /**
   * The nearest line at or above `from` whose text yields a test name: the
   * upward walk of `resolveRunTarget`, stated as a function.
   */
  function NearestDeclaration(lines: seq<string>, from: nat): (r: Option<nat>)
    requires from < |lines|
    ensures r.Some? ==> r.value <= from && NodeTestParser.YieldsName(lines[r.value])
    ensures r.Some? ==> forall j :: r.value < j <= from ==> !NodeTestParser.YieldsName(lines[j])
    ensures r.None? ==> forall j :: 0 <= j <= from ==> !NodeTestParser.YieldsName(lines[j])
    decreases from
  {
    if NodeTestParser.YieldsName(lines[from]) then Some(from)
    else if from == 0 then None
    else NearestDeclaration(lines, from - 1)
  }

  /** The nearest declaration is the only line with those properties (it follows from the contract above). */
  lemma NearestDeclarationUnique(lines: seq<string>, from: nat, i: nat)
    requires i <= from < |lines| && NodeTestParser.YieldsName(lines[i])
    requires forall j :: i < j <= from ==> !NodeTestParser.YieldsName(lines[j])
    ensures NearestDeclaration(lines, from) == Some(i)
  {
  }

  /** With no declaration up to the cursor there is none to find. */
  lemma NearestDeclarationNone(lines: seq<string>, from: nat)
    requires from < |lines|
    requires forall j :: 0 <= j <= from ==> !NodeTestParser.YieldsName(lines[j])
    ensures NearestDeclaration(lines, from) == None
  {
  }

  /** The target the active editor gives: the nearest declaration at or above the cursor. */
  function EditorTarget(editor: Editor): Option<RunTarget>
    requires editor.activeLine < |editor.lines|
  {
    match NearestDeclaration(editor.lines, editor.activeLine)
    case None => None
    case Some(i) => Some(RunTarget(editor.uri, NodeTestParser.FindTestNameInLine(editor.lines[i]).value))
  }

  /**
   * `resolveRunTarget`: explicit arguments when both are truthy (without
   * looking at the editor), otherwise the nearest declaration at or above
   * the cursor of the active editor, otherwise nothing.
   */
  method ResolveRunTarget(args: CommandArgs, editor: Option<Editor>) returns (r: Result<Option<RunTarget>>)
    requires ValidEditor(editor)
    ensures Truthy(args.fileUri) && HasTestName(args) ==>
      (r.Ok? <==> NormalizeUri(args.fileUri).Ok?)
      && (r.Ok? ==> r.value == Some(RunTarget(NormalizeUri(args.fileUri).value, args.testName.value)))
    ensures !(Truthy(args.fileUri) && HasTestName(args)) && editor.None? ==> r == Ok(None)
    ensures !(Truthy(args.fileUri) && HasTestName(args)) && editor.Some? ==> r == Ok(EditorTarget(editor.value))
  {
    if Truthy(args.fileUri) && HasTestName(args) {
      var u := NormalizeUri(args.fileUri);
      if u.Err? {
        return Err(u.message);
      }
      return Ok(Some(RunTarget(u.value, args.testName.value)));
    }
    if editor.None? {
      return Ok(None);
    }
    var Editor(lines, activeLine, uri) := editor.value;
    var line: int := activeLine;
    while line >= 0
      invariant -1 <= line <= activeLine
      invariant forall j :: line < j <= activeLine ==> !NodeTestParser.YieldsName(lines[j])
      decreases line + 1
    {
      var testName := NodeTestParser.FindTestNameInLine(lines[line]);
      if testName.Some? && testName.value != [] {
        NearestDeclarationUnique(lines, activeLine, line);
        return Ok(Some(RunTarget(uri, testName.value)));
      }
      line := line - 1;
    }
    NearestDeclarationNone(lines, activeLine);
    return Ok(None);
  }

  /** A target from the editor names a declaration of the document, at or above the cursor. */
  lemma EditorTargetIsDeclaration(editor: Editor)
    requires editor.activeLine < |editor.lines| && EditorTarget(editor).Some?
    ensures exists k :: (0 <= k < |NodeTestParser.Declarations(editor.lines)|
      && NodeTestParser.Declarations(editor.lines)[k].line <= editor.activeLine
      && NodeTestParser.Declarations(editor.lines)[k].name == EditorTarget(editor).value.testName)
  {
    var i := NearestDeclaration(editor.lines, editor.activeLine).value;
    NodeTestParser.DeclarationsComplete(editor.lines, i);
    NodeTestParser.DeclarationsSound(editor.lines);
    var k :| 0 <= k < |NodeTestParser.Declarations(editor.lines)| && NodeTestParser.Declarations(editor.lines)[k].line == i;
  }

  /** A string path and an object with a path become file Uris; `null` is refused. */
  lemma NormalizeUriExamples()
    ensures NormalizeUri(Text("/test/path.js")) == Ok(Uri("file", "/test/path.js"))
    ensures NormalizeUri(Record(Some("/test/file.js"))) == Ok(Uri("file", "/test/file.js"))
    ensures NormalizeUri(Nothing) == Err("Cannot convert value to Uri")
  {
  }

  /** The argument wins when given; with no argument and no editor there is no document. */
  lemma ResolveDocumentUriExamples()
    ensures ResolveDocumentUri(CommandArgs(Text("/test.js"), None), None) == Ok(Some(FileUri("/test.js")))
    ensures ResolveDocumentUri(NoArguments, None) == Ok(None)
  {
  }

  /** Complete arguments give their target; incomplete ones with no editor give none. */
  method ResolveRunTargetExamples() returns (explicit: Result<Option<RunTarget>>, incomplete: Result<Option<RunTarget>>)
    ensures explicit == Ok(Some(RunTarget(FileUri("/test.js"), "my test")))
    ensures incomplete == Ok(None)
  {
    explicit := ResolveRunTarget(CommandArgs(Text("/test.js"), Some("my test")), None);
    incomplete := ResolveRunTarget(NoArguments, None);
  }
}
