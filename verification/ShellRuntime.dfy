/** kernel/shell/runtime.c, the running shell: it refines the interpreter of module Shell. */
module ShellRuntime {
  import opened Strings
  import opened RamFs
  import opened LineEditor
  import opened Shell
  import Command

  ghost predicate Executable(kind: Command.Kind, arguments: seq<string>) {
    Bounded(arguments) && Command.AllLegal(arguments) && Command.HasValidArity(kind, |arguments|)
  }

  method ExecuteTouch(ramfs: FileTable, name: string)
    requires ramfs.Valid() && NUL !in name
    modifies ramfs, ramfs.slots
    ensures ramfs.Valid() && ramfs.files == Created(old(ramfs.files), name)
  {
    TextOfCString(name);
    var result := ramfs.Create(CString(name));
  }

  method ExecuteWrite(ramfs: FileTable, arguments: seq<string>)
    requires ramfs.Valid() && Bounded(arguments) && |arguments| >= 2 && NUL !in arguments[0]
    modifies ramfs, ramfs.slots
    ensures ramfs.Valid() && ramfs.files == Written(old(ramfs.files), arguments[0], Command.Join(arguments[1..]))
  {
    var joined, text := JoinedArguments(arguments, 1, false);
    assert text == Command.Join(arguments[1..]);
    TextOfCString(arguments[0]);
    var result := ramfs.Write(CString(arguments[0]), text);
  }

  /** join_arguments into the 256-byte text buffer, which a parsed command always fits. */
  method JoinedArguments(arguments: seq<string>, first: nat, leading: bool) returns (ok: bool, text: string)
    requires Bounded(arguments) && first <= |arguments| && (leading ==> first > 0)
    ensures ok && text == JoinedText(arguments, first, leading)
  {
    var buffer := new char[TEXT_CAPACITY];
    ParsedArgumentsFit(arguments, first, leading);
    var length;
    ok, length := JoinArguments(arguments, first, leading, buffer, 0);
    text := buffer[..length];
  }

  /** append puts a space before its text exactly when the file has some already. */
  method ExecuteAppend(ramfs: FileTable, arguments: seq<string>)
    requires ramfs.Valid() && Bounded(arguments) && |arguments| >= 2 && NUL !in arguments[0]
    modifies ramfs, ramfs.slots
    ensures ramfs.Valid()
    ensures ramfs.files == Appended(old(ramfs.files), arguments[0],
            AppendText(old(ramfs.files), arguments[0], arguments[1..]))
  {
    var found, existing := FileSize(ramfs, arguments[0], 0);
    var joined, text := JoinedArguments(arguments, 1, found && existing != 0);
    ghost var files := ramfs.files;
    assert text == AppendText(files, arguments[0], arguments[1..]);
    TextOfCString(arguments[0]);
    var result := ramfs.Append(CString(arguments[0]), text);
  }

  method ExecuteRm(ramfs: FileTable, name: string)
    requires ramfs.Valid() && NUL !in name
    modifies ramfs, ramfs.slots
    ensures ramfs.Valid() && ramfs.files == Removed(old(ramfs.files), name)
  {
    TextOfCString(name);
    var result := ramfs.Remove(CString(name));
  }

  /** cat reads exactly the file's content; 512 bytes are always enough. */
  method ExecuteCat(ramfs: FileTable, name: string) returns (result: Result, data: string)
    requires ramfs.Valid() && NUL !in name
    ensures result == Ok <==> name in ramfs.files
    ensures result == Ok ==> data == ramfs.files[name]
  {
    TextOfCString(name);
    ramfs.FilesAreOk();
    var length;
    result, data, length := ramfs.Read(CString(name), Zeros(FILE_MAX_BYTES), 0);
    if result == Ok {
      data := data[..length];
    }
  }

  /** echo prints the joined arguments and never finds them too long. */
  method ExecuteEcho(arguments: seq<string>) returns (ok: bool, text: string)
    requires Bounded(arguments)
    ensures ok && text == Command.Join(arguments)
  {
    ok, text := JoinedArguments(arguments, 0, false);
    assert arguments[0..] == arguments;
    assert text == Command.Join(arguments);
  }

  method ExecuteCommand(ramfs: FileTable, command: Command.Command)
    requires ramfs.Valid() && Executable(command.kind, command.arguments)
    modifies ramfs, ramfs.slots
    ensures ramfs.Valid() && ramfs.files == Execute(old(ramfs.files), command.kind, command.arguments)
  {
    assert command.arguments != [] ==> Command.Legal(command.arguments[0]);
    match command.kind
    case Touch => ExecuteTouch(ramfs, command.arguments[0]);
    case Write => ExecuteWrite(ramfs, command.arguments);
    case Append => ExecuteAppend(ramfs, command.arguments);
    case Rm => ExecuteRm(ramfs, command.arguments[0]);
    case _ =>
  }

  /** Whether a line is run, and as which command: it must parse, to a known command with the right
      number of arguments. */
  ghost predicate Accepts(text: string, run: bool, command: Command.Command) {
    var tokens := Command.Tokens(text);
    && (run <==> Command.Verdict(tokens) == Command.Parsed
                 && Command.HasValidArity(Command.KindOf(tokens[0]), |tokens| - 1))
    && (run ==> command == Command.CommandOf(tokens) && Executable(command.kind, command.arguments))
  }

  method CheckLine(line: seq<char>) returns (run: bool, command: Command.Command)
    requires Terminated(line)
    ensures Accepts(Text(line), run, command)
  {
    var parsed;
    parsed, command := Command.Parse(line, Command.Command(Command.Unknown, "", []));
    if parsed != Command.Parsed {
      return false, command;
    }
    ParsedIsExecutable(line);
    run := command.kind != Command.Unknown && Command.HasValidArity(command.kind, |command.arguments|);
  }

  lemma AcceptedLineRuns(files: Files, text: string, run: bool, command: Command.Command)
    requires Accepts(text, run, command)
    ensures RunLine(files, text) == if run then Execute(files, command.kind, command.arguments) else files
  {
  }

  /** A submitted line, from parsing to execution. */
  method HandleLine(ramfs: FileTable, line: seq<char>)
    requires ramfs.Valid() && Terminated(line)
    modifies ramfs, ramfs.slots
    ensures ramfs.Valid() && ramfs.files == RunLine(old(ramfs.files), Text(line))
  {
    var run, command := CheckLine(line);
    AcceptedLineRuns(ramfs.files, Text(line), run, command);
    if run {
      ExecuteCommand(ramfs, command);
    }
  }

  lemma ParsedIsExecutable(line: seq<char>)
    requires Command.Verdict(Command.Tokens(Text(line))) == Command.Parsed
    ensures var ts := Command.Tokens(Text(line)); ts != [] && Bounded(ts[1..]) && Command.AllLegal(ts[1..])
  {
    var ts := Command.Tokens(Text(line));
    ParsedIsBounded(ts);
    TextIsPrefix(line);
    Command.TokensAreLegal(Text(line));
    forall i | 0 <= i < |ts| - 1 ensures Command.Legal(ts[1..][i]) {
      assert ts[1..][i] == ts[i + 1];
    }
  }

  /** The 128-character line buffer takes every line the editor holds. */
  method TakeLine(editor: Editor) returns (line: seq<char>)
    requires editor.Valid() && editor.ready
    modifies editor, editor.buffer
    ensures Terminated(line) && Text(line) == old(editor.Line())
    ensures editor.Valid() && !editor.ready && editor.Line() == ""
  {
    ghost var text := editor.Line();
    var taken;
    taken, line := editor.Take(Zeros(LINE_MAX + 1));
    EditKeepsLineOk(text, NUL);
    TextOfBuffer(text, line[|text| + 1..]);
  }

  /** The submitted line is taken and run. */
  method SubmitLine(editor: Editor, ramfs: FileTable)
    requires editor.Valid() && editor.ready && ramfs.Valid()
    modifies editor, editor.buffer, ramfs, ramfs.slots
    ensures editor.Valid() && !editor.ready && editor.Line() == ""
    ensures ramfs.Valid() && ramfs.files == RunLine(old(ramfs.files), old(editor.Line()))
  {
    var line := TakeLine(editor);
    HandleLine(ramfs, line);
  }

  class Runtime {
    const editor: Editor
    const ramfs: FileTable
    var initialized: bool
    var started: bool

    ghost predicate Valid() reads this, editor, editor.buffer, ramfs, ramfs.slots {
      editor.Valid() && !editor.ready && ramfs.Valid()
    }

    ghost function Seen(): State reads this, editor, editor.buffer, ramfs {
      State(editor.Line(), ramfs.files)
    }

    constructor ()
      ensures Valid() && !initialized && !started && Seen() == State("", map[])
    {
      editor := new Editor();
      ramfs := new FileTable();
      initialized, started := false, false;
    }

    /** shell_runtime_init after its self-tests. */
    method Init()
      requires Valid()
      modifies this, editor, editor.buffer, ramfs, ramfs.slots
      ensures Valid() && initialized && !started && Seen() == State("", map[])
    {
      initialized, started := false, false;
      ramfs.Init();
      editor.Init();
      initialized := true;
    }

    method Start()
      requires Valid()
      modifies this
      ensures Valid() && Seen() == old(Seen()) && initialized == old(initialized)
      ensures started == (initialized || old(started))
    {
      if !initialized || started {
        return;
      }
      started := true;
    }

    /** One character: exactly one step of the interpreter. */
    method HandleChar(c: char)
      requires Valid()
      modifies editor, editor.buffer, ramfs, ramfs.slots
      ensures Valid()
      ensures Seen() == if initialized && started then OnChar(old(Seen()), c) else old(Seen())
    {
      if !initialized || !started {
        return;
      }
      var event := editor.Feed(c);
      if event == LineReady {
        SubmitLine(editor, ramfs);
      }
    }

    /** Any stream of characters after the start: the interpreter's run over it. */
    method HandleStream(stream: seq<char>)
      requires Valid() && initialized && started
      modifies editor, editor.buffer, ramfs, ramfs.slots
      ensures Valid() && Seen() == OnChars(old(Seen()), stream)
      decreases |stream|
    {
      if stream != [] {
        HandleStream(stream[..|stream| - 1]);
        HandleChar(stream[|stream| - 1]);
      }
    }

  }
}
