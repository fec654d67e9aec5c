/** The shell over whole character streams. */
module ShellRuns {
  import opened Strings
  import opened RamFs
  import opened LineEditor
  import opened Shell
  import Command

  const FRESH := State("", map[])

  // ----- what every stream keeps -----

  lemma ExecuteKeepsFilesOk(files: Files, kind: Command.Kind, arguments: seq<string>)
    requires FilesOk(files) && Command.HasValidArity(kind, |arguments|)
    ensures FilesOk(Execute(files, kind, arguments))
  {
    match kind
    case Touch => CreatedKeepsFilesOk(files, arguments[0]);
    case Write => WrittenKeepsFilesOk(files, arguments[0], Command.Join(arguments[1..]));
    case Append => AppendedKeepsFilesOk(files, arguments[0], AppendText(files, arguments[0], arguments[1..]));
    case Rm => RemoveKeepsFilesOk(files, arguments[0]);
    case _ =>
  }

  lemma CreatedKeepsFilesOk(files: Files, name: string)
    requires FilesOk(files)
    ensures FilesOk(Created(files, name))
  {
    if CreateResult(files, name) == Ok { PutKeepsFilesOk(files, name, ""); }
  }

  lemma WrittenKeepsFilesOk(files: Files, name: string, data: string)
    requires FilesOk(files)
    ensures FilesOk(Written(files, name, data))
  {
    if WriteResult(files, name, data) == Ok { PutKeepsFilesOk(files, name, data); }
  }

  lemma AppendedKeepsFilesOk(files: Files, name: string, data: string)
    requires FilesOk(files)
    ensures FilesOk(Appended(files, name, data))
  {
    if AppendResult(files, name, data) == Ok { PutKeepsFilesOk(files, name, files[name] + data); }
  }

  lemma CharKeepsOk(s: State, c: char)
    requires LineOk(s.text) && FilesOk(s.files)
    ensures LineOk(OnChar(s, c).text) && FilesOk(OnChar(s, c).files)
  {
    if EndsLine(c) {
      var tokens := Command.Tokens(s.text);
      if RunLine(s.files, s.text) != s.files {
        ExecuteKeepsFilesOk(s.files, Command.KindOf(tokens[0]), tokens[1..]);
      }
    } else {
      EditKeepsLineOk(s.text, c);
    }
  }

  /** After any stream: a line of at most 127 printable characters, at most sixteen files, legal
      names, at most 512 bytes each. */
  lemma {:induction false} StreamKeepsOk(stream: seq<char>)
    ensures LineOk(OnChars(FRESH, stream).text) && FilesOk(OnChars(FRESH, stream).files)
  {
    if stream != [] {
      var before := stream[..|stream| - 1];
      StreamKeepsOk(before);
      CharKeepsOk(OnChars(FRESH, before), stream[|stream| - 1]);
    }
  }

  // ----- a stream is its lines -----

  lemma {:induction false} TypingOnly(s: State, keys: seq<char>)
    requires s.text == "" && forall i :: 0 <= i < |keys| ==> !EndsLine(keys[i])
    ensures OnChars(s, keys) == State(Typed(keys), s.files)
  {
    if keys != [] {
      TypingOnly(s, keys[..|keys| - 1]);
    }
  }

  /** A line of keys and a line end: the files see only what the editing left. */
  lemma LineByLine(s: State, keys: seq<char>, end: char)
    requires s.text == "" && EndsLine(end) && forall i :: 0 <= i < |keys| ==> !EndsLine(keys[i])
    ensures OnChars(s, keys + [end]) == State("", RunLine(s.files, Typed(keys)))
  {
    TypingOnly(s, keys);
    assert (keys + [end])[..|keys|] == keys;
  }

  // ----- the content of a file is what was given since it was made -----

  /** The words given to each file since its last touch or write, kept beside the files. */
  type Given = map<string, seq<string>>

  function Tell(files: Files, given: Given, kind: Command.Kind, arguments: seq<string>): Given
    requires Command.HasValidArity(kind, |arguments|)
  {
    match kind
    case Touch => if CreateResult(files, arguments[0]) == Ok then given[arguments[0] := []] else given
    case Write =>
      if WriteResult(files, arguments[0], Command.Join(arguments[1..])) == Ok
      then given[arguments[0] := arguments[1..]] else given
    case Append =>
      if AppendResult(files, arguments[0], AppendText(files, arguments[0], arguments[1..])) == Ok
      then given[arguments[0] := WordsOf(given, arguments[0]) + arguments[1..]] else given
    case Rm => if RemoveResult(files, arguments[0]) == Ok then given - {arguments[0]} else given
    case _ => given
  }

  function WordsOf(given: Given, name: string): seq<string> {
    if name in given then given[name] else []
  }

  /** Every file's content is the space-join of the words given to it. */
  ghost predicate Matches(files: Files, given: Given) {
    && given.Keys == files.Keys
    && forall n :: n in given ==> Command.AllLegal(given[n]) && files[n] == Command.Join(given[n])
  }

  lemma EmptyIffNothingGiven(words: seq<string>)
    requires Command.AllLegal(words)
    ensures Command.Join(words) == "" <==> words == []
  {
    if words != [] {
      assert Command.Legal(words[0]);
    }
  }

  lemma AppendJoins(files: Files, name: string, earlier: seq<string>, words: seq<string>)
    requires name in files && Command.AllLegal(earlier) && files[name] == Command.Join(earlier) && words != []
    ensures files[name] + AppendText(files, name, words) == Command.Join(earlier + words)
  {
    EmptyIffNothingGiven(earlier);
    if earlier == [] {
      assert earlier + words == words;
    } else {
      Command.JoinOfConcat(earlier, words);
    }
  }

  lemma PutMatches(files: Files, given: Given, name: string, words: seq<string>)
    requires Matches(files, given) && Command.AllLegal(words)
    ensures Matches(files[name := Command.Join(words)], given[name := words])
  {
  }

  lemma ExecuteMatches(files: Files, given: Given, kind: Command.Kind, arguments: seq<string>)
    requires Matches(files, given) && Command.HasValidArity(kind, |arguments|) && Command.AllLegal(arguments)
    ensures Matches(Execute(files, kind, arguments), Tell(files, given, kind, arguments))
  {
    match kind
    case Touch => PutMatches(files, given, arguments[0], []);
    case Write => PutMatches(files, given, arguments[0], arguments[1..]);
    case Append =>
      if arguments[0] in files {
        AppendJoins(files, arguments[0], given[arguments[0]], arguments[1..]);
        PutMatches(files, given, arguments[0], given[arguments[0]] + arguments[1..]);
      }
    case Rm =>
    case _ =>
  }

  ghost function TellLine(files: Files, given: Given, line: string): Given {
    var tokens := Command.Tokens(line);
    if Command.Verdict(tokens) != Command.Parsed then given
    else if !Command.HasValidArity(Command.KindOf(tokens[0]), |tokens| - 1) then given
    else Tell(files, given, Command.KindOf(tokens[0]), tokens[1..])
  }

  lemma LineMatches(files: Files, given: Given, line: string)
    requires Matches(files, given) && NUL !in line
    ensures Matches(RunLine(files, line), TellLine(files, given, line))
  {
    var tokens := Command.Tokens(line);
    Command.TokensAreLegal(line);
    if Command.Verdict(tokens) == Command.Parsed && Command.HasValidArity(Command.KindOf(tokens[0]), |tokens| - 1) {
      assert forall i :: 0 <= i < |tokens| - 1 ==> tokens[1..][i] == tokens[i + 1];
      ExecuteMatches(files, given, Command.KindOf(tokens[0]), tokens[1..]);
    }
  }

  /** The words given to each file over a whole stream. */
  ghost function Story(stream: seq<char>): Given {
    if stream == [] then map[] else
      var before, c := stream[..|stream| - 1], stream[|stream| - 1];
      var s := OnChars(FRESH, before);
      if EndsLine(c) then TellLine(s.files, Story(before), s.text) else Story(before)
  }

  /** For every stream: a file exists exactly when a touch made it that no later rm undid, and its
      content is the space-join of all words given to it since its last touch or write. */
  lemma {:induction false} ContentIsTheWordsGiven(stream: seq<char>)
    ensures Matches(OnChars(FRESH, stream).files, Story(stream))
  {
    if stream != [] {
      var before, c := stream[..|stream| - 1], stream[|stream| - 1];
      ContentIsTheWordsGiven(before);
      if EndsLine(c) {
        var s := OnChars(FRESH, before);
        StreamKeepsOk(before);
        EditKeepsLineOk(s.text, c);
        LineMatches(s.files, Story(before), s.text);
      }
    }
  }
}
