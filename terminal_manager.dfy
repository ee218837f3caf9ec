/**
 * The terminal manager: one integrated terminal per workspace folder, kept in
 * a registry keyed by the folder's Uri string, the `node --test` command line
 * sent to it, and the ways a terminal leaves the registry (a stop, the user
 * closing it, the extension shutting down).
 *
 * Terminals are handles handed out by `createTerminal`; what the extension
 * asks of them (create, send text, show, dispose) is recorded in a log of
 * events, which stands for the calls into the editor.
 */
module TerminalManager {
  import opened Wrappers
  import JsonString
  import NodeTestParser
  import ArgumentResolver

  /** A workspace folder: the string form of its Uri, its name and its file-system path. */
  datatype WorkspaceFolder = WorkspaceFolder(uriString: string, name: string, fsPath: string)

  /** A terminal created by the extension, identified by the order of creation. */
  type Terminal = nat

  datatype TerminalOptions = TerminalOptions(name: string, cwd: Option<string>)

  /** One call into a terminal: creation, `sendText(text, true)`, `show(true)`, `dispose()` (and whether it threw). */
  datatype Event =
    | Created(terminal: Terminal, options: TerminalOptions)
    | Sent(terminal: Terminal, text: string)
    | Shown(terminal: Terminal)
    | Disposed(terminal: Terminal, threw: bool)

  const RootKey: string := "root"
  const BaseName: string := "Node Test Runner"

  /** `getWorkspaceKey`: the folder's Uri string, or "root" outside any folder. */
  function WorkspaceKey(folder: Option<WorkspaceFolder>): (key: string)
    ensures folder.Some? ==> key == folder.value.uriString
    ensures folder.None? ==> key == RootKey
  {
    if folder.Some? then folder.value.uriString else RootKey
  }

  /** The keys of the terminal manager's own test suite. */
  lemma WorkspaceKeyExamples()
    ensures WorkspaceKey(Some(WorkspaceFolder("file:///workspace", "test-workspace", "/workspace"))) == "file:///workspace"
    ensures WorkspaceKey(None) == "root"
  {
  }

  /** The options of a new terminal: named after the folder, and started in it. */
  function OptionsFor(folder: Option<WorkspaceFolder>): (o: TerminalOptions)
    ensures o.cwd.Some? <==> folder.Some?
    ensures folder.Some? ==> o.cwd.value == folder.value.fsPath
    ensures folder.Some? ==> o.name == "Node Test Runner (" + folder.value.name + ")"
    ensures folder.None? ==> o.name == "Node Test Runner"
  {
    if folder.Some? then TerminalOptions(BaseName + " (" + folder.value.name + ")", Some(folder.value.fsPath))
    else TerminalOptions(BaseName, None)
  }

  /** Terminals of differently named folders, and the one outside any folder, have different names. */
  lemma OptionsNameInjective(f: Option<WorkspaceFolder>, g: Option<WorkspaceFolder>)
    requires OptionsFor(f).name == OptionsFor(g).name
    ensures f.Some? <==> g.Some?
    ensures f.Some? ==> f.value.name == g.value.name
  {
    var n, m := OptionsFor(f).name, OptionsFor(g).name;
    if f.Some? && g.Some? {
      var x, y := f.value.name, g.value.name;
      assert |x| == |y|;
      assert n == (BaseName + " (") + x + ")";
      assert m == (BaseName + " (") + y + ")";
      assert x == n[|BaseName| + 2..|n| - 1];
      assert y == m[|BaseName| + 2..|m| - 1];
    }
  }

  /** `shellQuote`: the text as a JSON string literal, from which the text can be read back. */
  function ShellQuote(text: string): (q: string)
    ensures JsonString.Unquote(q) == Some(text)
  {
    JsonString.UnquoteQuote(text);
    JsonString.Quote(text)
  }

  /** The simplest quoting of the terminal manager's own test suite. */
  lemma ShellQuoteExample()
    ensures ShellQuote("test") == "\"test\""
  {
    JsonString.QuoteSimpleExample();
  }

  /** A test name the command line filters on: `testName` is truthy. */
  predicate IsTestName(testName: Option<string>) {
    testName.Some? && testName.value != []
  }

  /** The words of the command line `runNodeTest` builds. */
  function CommandWords(watch: bool, testName: Option<string>, fsPath: string): (w: seq<string>)
    ensures |w| == 3 + (if watch then 1 else 0) + (if IsTestName(testName) then 2 else 0)
    ensures w[0] == "node" && w[1] == "--test" && (watch <==> w[2] == "--watch")
    ensures w[|w| - 1] == ShellQuote(fsPath)
    ensures IsTestName(testName) ==> w[|w| - 2] == ShellQuote(NodeTestParser.BuildExactTestPattern(testName.value))
  {
    ["node", "--test"]
    + (if watch then ["--watch"] else [])
    + (if IsTestName(testName)
       then ["--test-name-pattern", ShellQuote(NodeTestParser.BuildExactTestPattern(testName.value))]
       else [])
    + [ShellQuote(fsPath)]
  }

  /** `s` ends with `w`. */
  predicate EndsWith(s: string, w: string) {
    |w| <= |s| && s[|s| - |w|..] == w
  }

  /** `Array.prototype.join`: the first part starts the result and the last part ends it. */
  function Join(parts: seq<string>, sep: string): (r: string)
    ensures |parts| == 0 ==> r == []
    ensures |parts| > 0 ==> parts[0] <= r && EndsWith(r, parts[|parts| - 1])
    decreases |parts|
  {
    if |parts| == 0 then []
    else if |parts| == 1 then parts[0]
    else parts[0] + sep + Join(parts[1..], sep)
  }

  /** The command line sent to the terminal: it starts `node --test ` and ends with the quoted path. */
  function CommandLine(watch: bool, testName: Option<string>, fsPath: string): (line: string)
    ensures "node" + " " + "--test" + " " <= line
    ensures EndsWith(line, ShellQuote(fsPath))
  {
    var w := CommandWords(watch, testName, fsPath);
    JoinHead(w, " ");
    Join(w, " ")
  }

  /** The first two of three or more words start their join, each followed by the separator. */
  lemma JoinHead(w: seq<string>, sep: string)
    requires |w| >= 3
    ensures w[0] + sep + w[1] + sep <= Join(w, sep)
  {
    var rest := Join(w[2..], sep);
    assert Join(w[1..], sep) == w[1] + sep + rest;
    assert Join(w, sep) == w[0] + sep + (w[1] + sep + rest);
    assert w[0] + sep + (w[1] + sep + rest) == (w[0] + sep + w[1] + sep) + rest;
  }

  /**
   * The words of the command line: the runner and its flag, `--watch` when
   * asked for, the quoted exact pattern of the name when a name is
   * given, and the file last; the quoted words read back as the pattern and
   * the path.
   */
  lemma CommandWordsShape(watch: bool, testName: Option<string>, fsPath: string)
    ensures var w := CommandWords(watch, testName, fsPath);
      |w| == 3 + (if watch then 1 else 0) + (if IsTestName(testName) then 2 else 0)
      && w[0] == "node" && w[1] == "--test"
      && (watch ==> w[2] == "--watch")
      && JsonString.Unquote(w[|w| - 1]) == Some(fsPath)
      && (IsTestName(testName) ==>
            w[|w| - 3] == "--test-name-pattern"
            && JsonString.Unquote(w[|w| - 2]) == Some(NodeTestParser.BuildExactTestPattern(testName.value)))
      && (!IsTestName(testName) ==> forall k :: 0 <= k < |w| ==> w[k] != "--test-name-pattern")
  {
    var w := CommandWords(watch, testName, fsPath);
    if !IsTestName(testName) {
      forall k | 0 <= k < |w| ensures w[k] != "--test-name-pattern" {
        if k == |w| - 1 {
          assert w[k][0] == '"';
        } else {
          assert |w[k]| != |"--test-name-pattern"|;
        }
      }
    }
  }

  /**
   * The pattern word, read back as a JSON string literal, is a literal
   * pattern whose text is the test name. How the terminal's shell reads the
   * word is not part of this model.
   */
  lemma CommandSelectsOnlyTest(watch: bool, testName: Option<string>, fsPath: string)
    requires IsTestName(testName)
    ensures var w := CommandWords(watch, testName, fsPath);
      var p := JsonString.Unquote(w[|w| - 2]).value;
      NodeTestParser.IsLiteralPattern(p[1..|p| - 1]) && NodeTestParser.PatternText(p[1..|p| - 1]) == testName.value
  {
    CommandWordsShape(watch, testName, fsPath);
    NodeTestParser.ExactPatternMatchesOnlyName(testName.value);
  }

  /** Text without characters below U+0020 (DEL and the C1 controls may occur), so without line breaks. */
  predicate Printable(s: string) {
    forall k :: 0 <= k < |s| ==> s[k] >= ' '
  }

  lemma PrintableConcat(a: string, b: string)
    requires Printable(a) && Printable(b)
    ensures Printable(a + b)
  {
    forall k | |a| <= k < |a + b| ensures (a + b)[k] >= ' ' {
      assert (a + b)[k] == b[k - |a|];
    }
  }

  lemma {:induction false} JoinPrintable(parts: seq<string>, sep: string)
    requires Printable(sep)
    requires AllPrintable(parts)
    ensures Printable(Join(parts, sep))
    decreases |parts|
  {
    if |parts| > 1 {
      JoinPrintable(parts[1..], sep);
      PrintableConcat(parts[0], sep);
      PrintableConcat(parts[0] + sep, Join(parts[1..], sep));
    }
  }

  lemma QuotePrintable(s: string)
    ensures Printable(JsonString.Quote(s))
  {
    JsonString.QuoteBodyClean(s);
    PrintableConcat("\"", JsonString.QuoteBody(s));
    PrintableConcat("\"" + JsonString.QuoteBody(s), "\"");
  }

  /** Every word printable. */
  predicate AllPrintable(ws: seq<string>) {
    forall i :: 0 <= i < |ws| ==> Printable(ws[i])
  }

  lemma AllPrintableConcat(a: seq<string>, b: seq<string>)
    requires AllPrintable(a) && AllPrintable(b)
    ensures AllPrintable(a + b)
  {
    forall i | |a| <= i < |a + b| ensures Printable((a + b)[i]) {
      assert (a + b)[i] == b[i - |a|];
    }
  }

  lemma FlagsPrintable()
    ensures Printable("node") && Printable("--test") && Printable("--watch") && Printable("--test-name-pattern")
  {
    NodePrintable();
    PatternFlagPrintable();
  }

  lemma NodePrintable()
    ensures Printable("node") && Printable("--test") && Printable("--watch")
  {
  }

  lemma PatternFlagPrintable()
    ensures Printable("--test-name-pattern")
  {
  }

  lemma CommandWordsPrintable(watch: bool, testName: Option<string>, fsPath: string)
    ensures AllPrintable(CommandWords(watch, testName, fsPath))
  {
    var head: seq<string> := ["node", "--test"];
    var flag: seq<string> := if watch then ["--watch"] else [];
    var named: seq<string> := if IsTestName(testName)
      then ["--test-name-pattern", ShellQuote(NodeTestParser.BuildExactTestPattern(testName.value))]
      else [];
    var file: seq<string> := [ShellQuote(fsPath)];
    FlagsPrintable();
    assert AllPrintable(head);
    assert AllPrintable(flag);
    if IsTestName(testName) {
      QuotePrintable(NodeTestParser.BuildExactTestPattern(testName.value));
    }
    assert AllPrintable(named);
    QuotePrintable(fsPath);
    assert AllPrintable(file);
    AllPrintableConcat(head, flag);
    AllPrintableConcat(head + flag, named);
    AllPrintableConcat(head + flag + named, file);
    assert CommandWords(watch, testName, fsPath) == head + flag + named + file;
  }

  /**
   * The command line holds no character below U+0020 (so no `\n` or `\r`),
   * so it is a single line of text, whatever the test name and the path contain.
   */
  lemma CommandLineSingleLine(watch: bool, testName: Option<string>, fsPath: string)
    ensures Printable(CommandLine(watch, testName, fsPath))
  {
    CommandWordsPrintable(watch, testName, fsPath);
    JoinPrintable(CommandWords(watch, testName, fsPath), " ");
  }

  /** An entry of the registry `terminalByWorkspace`: a workspace key and its terminal. */
  datatype Entry = Entry(key: string, terminal: Terminal)

  predicate DistinctKeys(es: seq<Entry>) {
    forall i, j :: 0 <= i < j < |es| ==> es[i].key != es[j].key
  }

  predicate DistinctTerminals(es: seq<Entry>) {
    forall i, j :: 0 <= i < j < |es| ==> es[i].terminal != es[j].terminal
  }

  /** `Map.prototype.get`. */
  function Lookup(es: seq<Entry>, key: string): (r: Option<Terminal>)
    ensures r.Some? ==> exists i :: 0 <= i < |es| && es[i] == Entry(key, r.value)
    ensures r.None? ==> forall i :: 0 <= i < |es| ==> es[i].key != key
  {
    if es == [] then None
    else if es[0].key == key then Some(es[0].terminal)
    else Lookup(es[1..], key)
  }

  /** Under distinct keys, the entry found is the one at the key's position. */
  lemma LookupAt(es: seq<Entry>, i: nat)
    requires DistinctKeys(es) && i < |es|
    ensures Lookup(es, es[i].key) == Some(es[i].terminal)
  {
    var r := Lookup(es, es[i].key);
    var j :| 0 <= j < |es| && es[j] == Entry(es[i].key, r.value);
    assert i == j;
  }

  /** `Map.prototype.delete`: every entry with the key goes, the others keep their order. */
  function RemoveKey(es: seq<Entry>, key: string): (r: seq<Entry>)
    ensures |r| <= |es|
    ensures forall i :: 0 <= i < |r| ==> r[i].key != key
    ensures forall e :: e in r ==> e in es
  {
    if es == [] then []
    else if es[0].key == key then RemoveKey(es[1..], key)
    else [es[0]] + RemoveKey(es[1..], key)
  }

  /** An entry survives a delete exactly when its key is another one. */
  lemma {:induction false} RemoveKeyMembers(es: seq<Entry>, key: string, e: Entry)
    ensures e in RemoveKey(es, key) <==> e in es && e.key != key
  {
    if es != [] {
      RemoveKeyMembers(es[1..], key, e);
      assert es == [es[0]] + es[1..];
    }
  }

  /** Under distinct keys, deleting a key removes exactly its entry. */
  lemma {:induction false} RemoveKeyAt(es: seq<Entry>, i: nat)
    requires DistinctKeys(es) && i < |es|
    ensures RemoveKey(es, es[i].key) == es[..i] + es[i + 1..]
  {
    var key := es[i].key;
    if i == 0 {
      RemoveKeyAbsent(es[1..], key);
    } else {
      assert es[1..][i - 1] == es[i];
      RemoveKeyAt(es[1..], i - 1);
      assert es[1..][..i - 1] + es[1..][i..] == es[1..i] + es[i + 1..];
      assert [es[0]] + es[1..i] == es[..i];
    }
  }

  lemma {:induction false} RemoveKeyAbsent(es: seq<Entry>, key: string)
    requires forall i :: 0 <= i < |es| ==> es[i].key != key
    ensures RemoveKey(es, key) == es
  {
    if es != [] {
      assert forall i :: 0 <= i < |es[1..]| ==> es[1..][i] == es[i + 1];
      RemoveKeyAbsent(es[1..], key);
      assert [es[0]] + es[1..] == es;
    }
  }

  /** After a delete the key is gone, and every other key still finds its terminal. */
  lemma {:induction false} LookupRemoveKey(es: seq<Entry>, key: string, other: string)
    ensures Lookup(RemoveKey(es, key), other) == if other == key then None else Lookup(es, other)
  {
    if es != [] {
      LookupRemoveKey(es[1..], key, other);
      if es[0].key != key {
        assert ([es[0]] + RemoveKey(es[1..], key))[1..] == RemoveKey(es[1..], key);
      }
    }
  }

  /** Deleting the same key twice is deleting it once. */
  lemma RemoveKeyIdempotent(es: seq<Entry>, key: string)
    ensures RemoveKey(RemoveKey(es, key), key) == RemoveKey(es, key)
  {
    var r := RemoveKey(es, key);
    forall i | 0 <= i < |r| ensures r[i].key != key {
      RemoveKeyMembers(es, key, r[i]);
    }
    RemoveKeyAbsent(r, key);
  }

  /** A `set` of a new key adds its entry at the end; the other keys are not affected. */
  lemma {:induction false} LookupAppend(es: seq<Entry>, e: Entry, key: string)
    requires Lookup(es, e.key).None?
    ensures Lookup(es + [e], key) == if key == e.key then Some(e.terminal) else Lookup(es, key)
  {
    if es != [] {
      assert (es + [e])[1..] == es[1..] + [e];
      assert es[0].key != e.key;
      LookupAppend(es[1..], e, key);
    } else {
      assert es + [e] == [e];
    }
  }

  /** Adding an entry under a new key with a terminal newer than all others keeps keys and terminals distinct. */
  lemma AppendFresh(es: seq<Entry>, e: Entry)
    requires DistinctKeys(es) && DistinctTerminals(es) && Lookup(es, e.key).None?
    requires forall i :: 0 <= i < |es| ==> es[i].terminal < e.terminal
    ensures DistinctKeys(es + [e]) && DistinctTerminals(es + [e])
  {
    forall i, j | 0 <= i < j < |es + [e]|
      ensures (es + [e])[i].key != (es + [e])[j].key && (es + [e])[i].terminal != (es + [e])[j].terminal
    {
      assert (es + [e])[i] == es[i];
    }
  }

  /** Removing one entry keeps keys and terminals distinct. */
  lemma DistinctRemoveAt(es: seq<Entry>, i: nat)
    requires DistinctKeys(es) && DistinctTerminals(es) && i < |es|
    ensures DistinctKeys(es[..i] + es[i + 1..]) && DistinctTerminals(es[..i] + es[i + 1..])
  {
    var r := es[..i] + es[i + 1..];
    assert forall j :: 0 <= j < |r| ==> r[j] == if j < i then es[j] else es[j + 1];
  }

  /** Under distinct terminals, deleting the key of a terminal leaves no entry with that terminal. */
  lemma RemoveKeyDropsTerminal(es: seq<Entry>, key: string, t: Terminal)
    requires DistinctTerminals(es) && Lookup(es, key) == Some(t)
    ensures forall j :: 0 <= j < |RemoveKey(es, key)| ==> RemoveKey(es, key)[j].terminal != t
  {
    var r := RemoveKey(es, key);
    var i :| 0 <= i < |es| && es[i] == Entry(key, t);
    forall j | 0 <= j < |r| ensures r[j].terminal != t {
      RemoveKeyMembers(es, key, r[j]);
      var k :| 0 <= k < |es| && es[k] == r[j];
    }
  }

  /** The close listener's removal: the first entry holding the terminal goes. */
  function WithoutTerminal(es: seq<Entry>, t: Terminal): (r: seq<Entry>)
    ensures |r| == |es| - 1 || (|r| == |es| && r == es)
  {
    if es == [] then []
    else if es[0].terminal == t then es[1..]
    else [es[0]] + WithoutTerminal(es[1..], t)
  }

  lemma {:induction false} WithoutTerminalAt(es: seq<Entry>, t: Terminal, i: nat)
    requires i < |es| && es[i].terminal == t
    requires forall j :: 0 <= j < i ==> es[j].terminal != t
    ensures WithoutTerminal(es, t) == es[..i] + es[i + 1..]
  {
    if i > 0 {
      assert es[1..][i - 1] == es[i];
      WithoutTerminalAt(es[1..], t, i - 1);
      assert es[1..][..i - 1] + es[1..][i..] == es[1..i] + es[i + 1..];
      assert [es[0]] + es[1..i] == es[..i];
    }
  }

  /** Closing a terminal the registry does not hold changes nothing. */
  lemma {:induction false} WithoutTerminalAbsent(es: seq<Entry>, t: Terminal)
    requires forall j :: 0 <= j < |es| ==> es[j].terminal != t
    ensures WithoutTerminal(es, t) == es
  {
    if es != [] {
      assert forall j :: 0 <= j < |es[1..]| ==> es[1..][j] == es[j + 1];
      WithoutTerminalAbsent(es[1..], t);
      assert [es[0]] + es[1..] == es;
    }
  }

  /** No entry holds the terminal. */
  predicate HoldsNone(es: seq<Entry>, t: Terminal) {
    forall j :: 0 <= j < |es| ==> es[j].terminal != t
  }

  /** Under distinct terminals, removing the entry of a terminal leaves none holding it. */
  lemma ClosedTerminalGone(es: seq<Entry>, t: Terminal, i: nat)
    requires DistinctTerminals(es) && i < |es| && es[i].terminal == t
    ensures HoldsNone(es[..i] + es[i + 1..], t)
  {
    var r := es[..i] + es[i + 1..];
    assert forall j :: 0 <= j < |r| ==> r[j] == if j < i then es[j] else es[j + 1];
  }

  /**
   * A stop deletes the workspace's entry before it disposes the terminal, so
   * the close event that the disposal fires finds nothing more to remove.
   */
  lemma StopThenCloseIsNoOp(es: seq<Entry>, key: string, t: Terminal)
    requires DistinctTerminals(es) && Lookup(es, key) == Some(t)
    ensures WithoutTerminal(RemoveKey(es, key), t) == RemoveKey(es, key)
  {
    RemoveKeyDropsTerminal(es, key, t);
    WithoutTerminalAbsent(RemoveKey(es, key), t);
  }

  /** What `disposeAllTerminals` does to each terminal in turn, in the registry's order. */
  function DisposalLog(es: seq<Entry>, throwing: set<Terminal>): (log: seq<Event>)
    ensures |log| == |es|
    ensures forall i :: 0 <= i < |es| ==> log[i] == Disposed(es[i].terminal, es[i].terminal in throwing)
  {
    if es == [] then [] else [Disposed(es[0].terminal, es[0].terminal in throwing)] + DisposalLog(es[1..], throwing)
  }

  /**
   * The registry's invariant: one terminal per key, no terminal under two
   * keys, every terminal in the registry and in the log one that was
   * created, and no registered terminal disposed.
   */
  predicate Inv(es: seq<Entry>, n: nat, log: seq<Event>) {
    DistinctKeys(es)
    && DistinctTerminals(es)
    && (forall i :: 0 <= i < |es| ==> es[i].terminal < n)
    && (forall k :: 0 <= k < |log| ==> log[k].terminal < n)
    && (forall i, k :: 0 <= i < |es| && 0 <= k < |log| && log[k].Disposed? ==> log[k].terminal != es[i].terminal)
  }

  /** Calls into created terminals that dispose nothing keep the invariant. */
  lemma InvCalls(es: seq<Entry>, n: nat, log: seq<Event>, calls: seq<Event>)
    requires Inv(es, n, log)
    requires forall k :: 0 <= k < |calls| ==> calls[k].terminal < n && !calls[k].Disposed?
    ensures Inv(es, n, log + calls)
  {
    assert forall k :: 0 <= k < |log + calls| ==> (log + calls)[k] == if k < |log| then log[k] else calls[k - |log|];
  }

  /** Creating a terminal for a new key keeps the invariant. */
  lemma InvCreate(es: seq<Entry>, n: nat, log: seq<Event>, key: string, options: TerminalOptions)
    requires Inv(es, n, log) && Lookup(es, key).None?
    ensures Inv(es + [Entry(key, n)], n + 1, log + [Created(n, options)])
  {
    var e := Entry(key, n);
    var created := Created(n, options);
    AppendFresh(es, e);
    assert forall k :: 0 <= k < |log + [created]| ==> (log + [created])[k] == if k < |log| then log[k] else created;
    assert forall i :: 0 <= i < |es + [e]| ==> (es + [e])[i] == if i < |es| then es[i] else e;
  }

  /** Deleting an entry keeps the invariant, also when its terminal is then disposed. */
  lemma InvRemove(es: seq<Entry>, n: nat, log: seq<Event>, i: nat)
    requires Inv(es, n, log) && i < |es|
    ensures Inv(es[..i] + es[i + 1..], n, log)
    ensures Inv(es[..i] + es[i + 1..], n, log + [Disposed(es[i].terminal, false)])
  {
    var r := es[..i] + es[i + 1..];
    var disposed := Disposed(es[i].terminal, false);
    DistinctRemoveAt(es, i);
    assert forall j :: 0 <= j < |r| ==> r[j] == if j < i then es[j] else es[j + 1];
    assert forall k :: 0 <= k < |log + [disposed]| ==> (log + [disposed])[k] == if k < |log| then log[k] else disposed;
  }

  /** An empty registry keeps the invariant whatever was disposed. */
  lemma InvEmpty(n: nat, log: seq<Event>)
    requires forall k :: 0 <= k < |log| ==> log[k].terminal < n
    ensures Inv([], n, log)
  {
  }

  /** The registry of terminals by workspace key, with the calls made into the terminals so far. */
  class TerminalRegistry {
    var entries: seq<Entry>
    var nextHandle: nat
    var log: seq<Event>

    ghost predicate Valid()
      reads this
    {
      Inv(entries, nextHandle, log)
    }

    /** Whether the terminal has been disposed by the extension. */
    ghost predicate WasDisposed(t: Terminal)
      reads this
    {
      exists k :: 0 <= k < |log| && log[k].Disposed? && log[k].terminal == t
    }

    constructor()
      ensures Valid()
      ensures entries == [] && nextHandle == 0 && log == []
    {
      entries := [];
      nextHandle := 0;
      log := [];
    }

    /** `getOrCreateTerminal`: the workspace's terminal, created and registered on first use. */
    method GetOrCreateTerminal(folder: Option<WorkspaceFolder>) returns (t: Terminal)
      requires Valid()
      modifies this
      ensures Valid()
      ensures Lookup(entries, WorkspaceKey(folder)) == Some(t)
      ensures old(Lookup(entries, WorkspaceKey(folder))).Some? ==>
        t == old(Lookup(entries, WorkspaceKey(folder))).value
        && entries == old(entries) && nextHandle == old(nextHandle) && log == old(log)
      ensures old(Lookup(entries, WorkspaceKey(folder))).None? ==>
        t == old(nextHandle)
        && entries == old(entries) + [Entry(WorkspaceKey(folder), t)]
        && nextHandle == old(nextHandle) + 1
        && log == old(log) + [Created(t, OptionsFor(folder))]
    {
      var key := WorkspaceKey(folder);
      var found := Lookup(entries, key);
      if found.Some? {
        return found.value;
      }
      t := nextHandle;
      InvCreate(entries, nextHandle, log, key, OptionsFor(folder));
      LookupAppend(entries, Entry(key, t), key);
      nextHandle := nextHandle + 1;
      log := log + [Created(t, OptionsFor(folder))];
      entries := entries + [Entry(key, t)];
    }
  
    /**
     * `runNodeTest`: sends the command line for the file (and the test, when
     * named) to the terminal of the file's workspace, then shows it. A value
     * `normalizeUri` cannot convert (neither a Uri, a string, nor an object
     * with a truthy `path`) rejects the promise with `Cannot convert value to
     * Uri` before anything happens.
     */
    method RunNodeTest(fileUri: ArgumentResolver.UriLike, testName: Option<string>, watch: bool,
                       workspaceOf: ArgumentResolver.Uri -> Option<WorkspaceFolder>) returns (r: Result<()>)
      requires Valid()
      modifies this
      ensures Valid()
      ensures ArgumentResolver.NormalizeUri(fileUri).Err? ==>
        r == Err(ArgumentResolver.CannotConvert)
        && entries == old(entries) && nextHandle == old(nextHandle) && log == old(log)
      ensures ArgumentResolver.NormalizeUri(fileUri).Ok? ==>
        var uri := ArgumentResolver.NormalizeUri(fileUri).value;
        var folder := workspaceOf(uri);
        var key := WorkspaceKey(folder);
        var known := old(Lookup(entries, key));
        var t := if known.Some? then known.value else old(nextHandle);
        r == Ok(())
        && entries == (if known.Some? then old(entries) else old(entries) + [Entry(key, t)])
        && nextHandle == (if known.Some? then old(nextHandle) else old(nextHandle) + 1)
        && log == old(log) + (if known.Some? then [] else [Created(t, OptionsFor(folder))])
                 + [Sent(t, CommandLine(watch, testName, ArgumentResolver.FsPath(uri))), Shown(t)]
    {
      var u := ArgumentResolver.NormalizeUri(fileUri);
      if u.Err? {
        return Err(u.message);
      }
      var folder := workspaceOf(u.value);
      var t := GetOrCreateTerminal(folder);
      SendAndShow(t, CommandLine(watch, testName, ArgumentResolver.FsPath(u.value)));
      r := Ok(());
    }

    /** `terminal.sendText(text, true)`, then `terminal.show(true)`, on a registered terminal. */
    method SendAndShow(t: Terminal, text: string)
      requires Valid() && t < nextHandle
      modifies this
      ensures Valid()
      ensures entries == old(entries) && nextHandle == old(nextHandle)
      ensures log == old(log) + [Sent(t, text), Shown(t)]
    {
      var calls := [Sent(t, text), Shown(t)];
      InvCalls(entries, nextHandle, log, calls);
      log := log + calls;
    }

    /**
     * `stopNodeWatch`: deletes the workspace's terminal from the registry and
     * disposes it, answering whether there was one to stop.
     */
    method StopNodeWatch(fileUri: ArgumentResolver.UriLike,
                         workspaceOf: ArgumentResolver.Uri -> Option<WorkspaceFolder>) returns (r: Result<bool>)
      requires Valid()
      modifies this
      ensures Valid()
      ensures nextHandle == old(nextHandle)
      ensures ArgumentResolver.NormalizeUri(fileUri).Err? ==>
        r == Err(ArgumentResolver.CannotConvert) && entries == old(entries) && log == old(log)
      ensures ArgumentResolver.NormalizeUri(fileUri).Ok? ==>
        var key := WorkspaceKey(workspaceOf(ArgumentResolver.NormalizeUri(fileUri).value));
        var known := old(Lookup(entries, key));
        Lookup(entries, key).None?
        && (known.None? ==> r == Ok(false) && entries == old(entries) && log == old(log))
        && (known.Some? ==> r == Ok(true) && entries == RemoveKey(old(entries), key)
                            && log == old(log) + [Disposed(known.value, false)])
    {
      var u := ArgumentResolver.NormalizeUri(fileUri);
      if u.Err? {
        return Err(u.message);
      }
      var key := WorkspaceKey(workspaceOf(u.value));
      var found := Lookup(entries, key);
      if found.None? {
        return Ok(false);
      }
      var t := found.value;
      var i :| 0 <= i < |entries| && entries[i] == Entry(key, t);
      RemoveKeyAt(entries, i);
      InvRemove(entries, nextHandle, log, i);
      LookupRemoveKey(entries, key, key);
      entries := RemoveKey(entries, key);
      log := log + [Disposed(t, false)];
      return Ok(true);
    }

    /**
     * The close listener: when a terminal closes, the first registry entry
     * holding it is deleted. A terminal the extension disposed itself is no
     * longer registered, so its close event changes nothing.
     */
    method OnTerminalClosed(t: Terminal)
      requires Valid()
      modifies this
      ensures Valid()
      ensures entries == WithoutTerminal(old(entries), t)
      ensures log == old(log) && nextHandle == old(nextHandle)
      ensures HoldsNone(entries, t)
      ensures old(WasDisposed(t)) ==> entries == old(entries)
    {
      var i := 0;
      while i < |entries|
        invariant 0 <= i <= |entries|
        invariant entries == old(entries) && log == old(log) && nextHandle == old(nextHandle)
        invariant forall j :: 0 <= j < i ==> entries[j].terminal != t
      {
        if entries[i].terminal == t {
          var key := entries[i].key;
          RemoveKeyAt(entries, i);
          WithoutTerminalAt(entries, t, i);
          InvRemove(entries, nextHandle, log, i);
          ClosedTerminalGone(entries, t, i);
          entries := RemoveKey(entries, key);
          return;
        }
        i := i + 1;
      }
      WithoutTerminalAbsent(entries, t);
    }

    /**
     * `disposeAllTerminals`: tries to dispose every registered terminal, in
     * the registry's order, going on when one throws, then empties the
     * registry. `throwing` is the set of terminals whose `dispose` throws.
     */
    method DisposeAllTerminals(throwing: set<Terminal>)
      requires Valid()
      modifies this
      ensures Valid()
      ensures entries == [] && nextHandle == old(nextHandle)
      ensures log == old(log) + DisposalLog(old(entries), throwing)
    {
      var i := 0;
      while i < |entries|
        invariant 0 <= i <= |entries|
        invariant entries == old(entries) && nextHandle == old(nextHandle)
        invariant log == old(log) + DisposalLog(entries[..i], throwing)
        invariant forall k :: 0 <= k < |log| ==> log[k].terminal < nextHandle
      {
        var t := entries[i].terminal;
        var disposed := Disposed(t, t in throwing);
        assert DisposalLog(entries[..i + 1], throwing) == DisposalLog(entries[..i], throwing) + [disposed];
        assert forall k :: 0 <= k < |log + [disposed]| ==> (log + [disposed])[k] == if k < |log| then log[k] else disposed;
        log := log + [disposed];
        i := i + 1;
      }
      assert entries[..i] == entries;
      InvEmpty(nextHandle, log);
      entries := [];
    }
  }

  /** Two runs in the same workspace share one terminal. */
  method SameWorkspaceScenario(folder: Option<WorkspaceFolder>) returns (first: Terminal, second: Terminal)
    ensures first == second
  {
    var registry := new TerminalRegistry();
    first := registry.GetOrCreateTerminal(folder);
    second := registry.GetOrCreateTerminal(folder);
  }

  /** A run, then two stops of the same file: the first stops the terminal, the second finds none. */
  method StopTwiceScenario(fileUri: ArgumentResolver.UriLike, testName: Option<string>,
                           workspaceOf: ArgumentResolver.Uri -> Option<WorkspaceFolder>)
    returns (run: Result<()>, first: Result<bool>, second: Result<bool>)
    requires ArgumentResolver.NormalizeUri(fileUri).Ok?
    ensures run == Ok(()) && first == Ok(true) && second == Ok(false)
  {
    var registry := new TerminalRegistry();
    run := registry.RunNodeTest(fileUri, testName, false, workspaceOf);
    first := registry.StopNodeWatch(fileUri, workspaceOf);
    second := registry.StopNodeWatch(fileUri, workspaceOf);
  }

  /** After the user closes the workspace's terminal, the next run creates a new one. */
  method CloseThenReopenScenario(folder: Option<WorkspaceFolder>) returns (before: Terminal, after: Terminal)
    ensures before != after
  {
    var registry := new TerminalRegistry();
    before := registry.GetOrCreateTerminal(folder);
    registry.OnTerminalClosed(before);
    after := registry.GetOrCreateTerminal(folder);
  }

  /** Shutting down with terminals in two workspaces tries to dispose each one, even when disposing throws. */
  method DisposeAllScenario(f: Option<WorkspaceFolder>, g: Option<WorkspaceFolder>, throwing: set<Terminal>)
    returns (attempts: nat, remaining: nat)
    ensures remaining == 0
    ensures attempts == if WorkspaceKey(f) == WorkspaceKey(g) then 1 else 2
  {
    var registry := new TerminalRegistry();
    var a := registry.GetOrCreateTerminal(f);
    var b := registry.GetOrCreateTerminal(g);
    var before := |registry.log|;
    registry.DisposeAllTerminals(throwing);
    attempts := |registry.log| - before;
    remaining := |registry.entries|;
  }
}
